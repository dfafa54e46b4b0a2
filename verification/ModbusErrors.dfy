/** The transmission errors a Modbus RTU checksum cannot miss. */
module ModbusErrors {
  import opened ModbusCrc
  import opened ModbusOrbit

  /** What a receiver accepts: at least three bytes whose checksum, over data and
      checksum bytes together, leaves nothing. */
  predicate Intact(frame: seq<bv8>) {
    |frame| >= 3 && Crc(frame) == 0
  }

  // ----- Bits of a frame ---------------------------------------------------------

  lemma {:induction false} FrameBitsInjective(f: seq<bv8>, g: seq<bv8>)
    requires |f| == |g| && FrameBits(f) == FrameBits(g)
    ensures f == g
  {
    if f != [] {
      var a, b := FrameBits(f), FrameBits(g);
      assert Bits(f[0]) == a[..8] == b[..8] == Bits(g[0]);
      assert FrameBits(f[1..]) == a[8..] == b[8..] == FrameBits(g[1..]);
      BitsInjective(f[0], g[0]);
      FrameBitsInjective(f[1..], g[1..]);
      assert f == [f[0]] + f[1..] && g == [g[0]] + g[1..];
    }
  }

  lemma BitsInjective(a: bv8, b: bv8)
    requires Bits(a) == Bits(b)
    ensures a == b
  {
    WordOfByte(a);
    WordOfByte(b);
    assert (a as bv16) == (b as bv16) ==> a == b;
  }

  // ----- Bursts -------------------------------------------------------------------

  /** Two streams that differ only inside sixteen consecutive bits end in
      different states. */
  lemma BurstSeparates(c: bv16, a: seq<bool>, b: seq<bool>, at: nat, n: nat)
    requires |a| == |b| && n <= 16 && at + n <= |a| && a != b
    requires a[..at] == b[..at] && a[at + n..] == b[at + n..]
    ensures Serial(c, a) != Serial(c, b)
  {
    var p, v, w, q := a[..at], a[at..at + n], b[at..at + n], a[at + n..];
    assert a == p + (v + q) && b == p + (w + q);
    SerialConcat(c, p, v + q);
    SerialConcat(c, p, w + q);
    var s := Serial(c, p);
    SerialConcat(s, v, q);
    SerialConcat(s, w, q);
    if Serial(c, a) == Serial(c, b) {
      SerialInjective(Serial(s, v), Serial(s, w), q);
      SerialIsShifts(s, v);
      SerialIsShifts(s, w);
      ShiftsInjective(Xor(s, Word(v)), Xor(s, Word(w)), n);
      XorCancels(s, Word(v), Word(w));
      WordInjective(v, w);
      assert false;
    }
  }

  /** Burst errors: two different frames of one length that differ only within
      sixteen consecutive bits on the wire, wherever that is and however long
      the frame, are never both accepted. */
  lemma BurstsDetected(f: seq<bv8>, g: seq<bv8>, at: nat, n: nat)
    requires |f| == |g| && f != g && n <= 16 && at + n <= 8 * |f|
    requires FrameBits(f)[..at] == FrameBits(g)[..at] && FrameBits(f)[at + n..] == FrameBits(g)[at + n..]
    ensures Crc(f) != Crc(g)
    ensures !(Intact(f) && Intact(g))
  {
    if FrameBits(f) == FrameBits(g) {
      FrameBitsInjective(f, g);
    }
    BurstSeparates(INIT, FrameBits(f), FrameBits(g), at, n);
  }

  // ----- Parity ---------------------------------------------------------------------

  /** Whether an odd number of bits is set. */
  function OddBits(bits: seq<bool>): bool {
    if bits == [] then false else bits[0] != OddBits(bits[1..])
  }

  /** The same for the low `n` bits of a word. */
  function OddLow(c: bv16, n: nat): bool
    decreases n
  {
    if n == 0 then false else Carry(c) != OddLow(Halved(c), n - 1)
  }

  function OddWord(c: bv16): bool {
    OddLow(c, 16)
  }

  lemma {:induction false} OddLowXor(a: bv16, b: bv16, n: nat)
    ensures OddLow(Xor(a, b), n) == (OddLow(a, n) != OddLow(b, n))
    decreases n
  {
    hide Xor, Carry, Halved;
    if n > 0 {
      HalvedLinear(a, b);
      CarryLinear(a, b);
      OddLowXor(Halved(a), Halved(b), n - 1);
    }
  }

  lemma HalfWithin(x: bv16, m: bv16)
    requires Within(x, Join(m, true)) && Within(m, 0x7FFF)
    ensures Within(Halved(x), m)
  {
  }

  lemma NothingWithin(x: bv16)
    requires Within(x, 0)
    ensures x == 0 && !Carry(x)
  {
  }

  lemma {:induction false} OddLowTop(x: bv16, n: nat)
    requires n <= 15 && Within(x, Low(n))
    ensures OddLow(x, n + 1) == OddLow(x, n)
    decreases n
  {
    if n == 0 {
      NothingWithin(x);
    } else {
      hide Within, Join, Carry, Halved;
      LowWithin15(n - 1);
      HalfWithin(x, Low(n - 1));
      OddLowTop(Halved(x), n - 1);
    }
  }

  lemma ShiftKeepsParity(c: bv16)
    ensures OddWord(Shift(c)) == OddWord(c)
  {
    var h := Halved(c);
    Low15IsMask();
    TopCleared(c);
    ShiftParts(c);
    hide Halved, Carry, MinusPoly, Within, Xor, Low, Shift;
    OddLowTop(h, 15);
    if Carry(c) {
      MinusPolyIsXor(h);
      OddLowXor(h, 0xA001, 16);
      PolynomialIsOdd();
    }
  }

  lemma TopCleared(c: bv16)
    ensures Within(Halved(c), 0x7FFF)
  {
  }

  lemma MinusPolyIsXor(c: bv16)
    ensures MinusPoly(c) == Xor(c, 0xA001)
  {
  }

  lemma Low15IsMask()
    ensures Low(15) == 0x7FFF
  {
    assert Low(3) == 7 && Low(6) == 0x3F && Low(9) == 0x1FF && Low(12) == 0xFFF;
  }

  lemma PolynomialIsOdd()
    ensures OddWord(0xA001)
  {
    assert !OddLow(5, 3);
    assert !OddLow(0x28, 6);
    assert !OddLow(0x140, 9);
    assert !OddLow(0xA00, 12);
    assert !OddLow(0x5000, 15);
  }

  lemma TakeParity(c: bv16, b: bool)
    ensures OddWord(Take(c, b)) == (OddWord(c) != b)
  {
    hide OddLow, Xor, Shift;
    ShiftKeepsParity(Xor(c, Bit(b)));
    OddLowXor(c, Bit(b), 16);
    BitParity(b);
  }

  lemma BitParity(b: bool)
    ensures OddWord(Bit(b)) == b && !OddWord(0) && !OddWord(INIT)
  {
    OddLowZero(15);
    OddLowZero(16);
    OddLowOnes();
  }

  lemma {:induction false} OddLowZero(n: nat)
    ensures !OddLow(0, n)
  {
    if n > 0 {
      OddLowZero(n - 1);
    }
  }

  lemma OddLowOnes()
    ensures !OddLow(0xFFFF, 16)
  {
    assert !OddLow(0xF, 4) && !OddLow(0xFF, 8) && !OddLow(0xFFF, 12);
  }

  /** The register's parity is that of everything it has taken in. */
  lemma {:induction false} SerialParity(c: bv16, bits: seq<bool>)
    ensures OddWord(Serial(c, bits)) == (OddWord(c) != OddBits(bits))
    decreases bits
  {
    hide OddWord, Take;
    if bits != [] {
      TakeParity(c, bits[0]);
      SerialParity(Take(c, bits[0]), bits[1..]);
    }
  }

  /** Every frame that is accepted has an even number of one bits. */
  lemma IntactIsEven(f: seq<bv8>)
    requires Intact(f)
    ensures !OddBits(FrameBits(f))
  {
    SerialParity(INIT, FrameBits(f));
    BitParity(true);
  }

  /** In how many places two streams differ. */
  function Distance(a: seq<bool>, b: seq<bool>): nat
    requires |a| == |b|
  {
    if a == [] then 0 else (if a[0] != b[0] then 1 else 0) + Distance(a[1..], b[1..])
  }

  lemma {:induction false} DistanceParity(a: seq<bool>, b: seq<bool>)
    requires |a| == |b|
    ensures (Distance(a, b) % 2 == 1) == (OddBits(a) != OddBits(b))
  {
    if a != [] {
      DistanceParity(a[1..], b[1..]);
    }
  }

  /** Two frames differing in an odd number of bits are never both accepted. */
  lemma OddErrorsDetected(f: seq<bv8>, g: seq<bv8>)
    requires |f| == |g| && Distance(FrameBits(f), FrameBits(g)) % 2 == 1
    ensures Crc(f) != Crc(g)
    ensures !(Intact(f) && Intact(g))
  {
    hide OddLow;
    SerialParity(INIT, FrameBits(f));
    SerialParity(INIT, FrameBits(g));
    DistanceParity(FrameBits(f), FrameBits(g));
  }

  // ----- Two errors ---------------------------------------------------------------------

  /** Two registers in different states, fed the same bits, stay apart by exactly
      their first difference shifted along. */
  lemma {:induction false} DifferenceShifts(a: bv16, b: bv16, bits: seq<bool>)
    ensures Xor(Serial(a, bits), Serial(b, bits)) == Shifts(Xor(a, b), |bits|)
    decreases bits
  {
    hide Take, Xor, Shift;
    if bits != [] {
      TakeDifference(a, b, bits[0]);
      DifferenceShifts(Take(a, bits[0]), Take(b, bits[0]), bits[1..]);
    }
  }

  lemma TakeDifference(a: bv16, b: bv16, x: bool)
    ensures Xor(Take(a, x), Take(b, x)) == Shift(Xor(a, b))
  {
    ShiftLinear(Xor(a, Bit(x)), Xor(b, Bit(x)));
    assert Xor(Xor(a, Bit(x)), Xor(b, Bit(x))) == Xor(a, b);
  }

  lemma XorWithSelf(a: bv16)
    ensures Xor(a, a) == 0
  {
  }

  lemma XorZero(a: bv16, b: bv16)
    ensures Xor(a, b) == 0 <==> a == b
  {
    hide Xor;
    XorWithSelf(a);
    if Xor(a, b) == 0 {
      XorCancels(a, a, b);
    }
  }

  lemma OneBitApart(c: bv16, x: bool)
    ensures Xor(Take(c, x), Take(c, !x)) == Shift(1)
  {
    ShiftLinear(Xor(c, Bit(x)), Xor(c, Bit(!x)));
    XorRegroup(c, Bit(x), c, Bit(!x));
    XorWithSelf(c);
    assert Xor(Bit(x), Bit(!x)) == 1 && Xor(0, 1) == 1;
  }

  /** Two registers meet on opposite bits exactly when they differ in the low bit alone. */
  lemma TakeMeets(a: bv16, b: bv16, x: bool)
    ensures Take(a, x) == Take(b, !x) <==> Xor(a, b) == 1
  {
    XorMeets(a, b, x);
    hide Shift;
    if Take(a, x) == Take(b, !x) {
      ShiftInjective(Xor(a, Bit(x)), Xor(b, Bit(!x)));
    }
  }

  lemma XorMeets(a: bv16, b: bv16, x: bool)
    ensures Xor(a, Bit(x)) == Xor(b, Bit(!x)) <==> Xor(a, b) == 1
  {
    assert Xor(Bit(x), Bit(!x)) == 1;
    hide Xor;
    XorRegroup(a, Bit(x), b, Bit(!x));
    XorZero(Xor(a, Bit(x)), Xor(b, Bit(!x)));
    XorZero(Xor(a, b), 1);
  }

  /** Where two streams first differ. */
  lemma {:induction false} FirstDifference(a: seq<bool>, b: seq<bool>) returns (i: nat)
    requires |a| == |b| && Distance(a, b) > 0
    ensures i < |a| && a[..i] == b[..i] && a[i] == !b[i]
    ensures Distance(a[i + 1..], b[i + 1..]) == Distance(a, b) - 1
    decreases a
  {
    if a[0] != b[0] {
      i := 0;
    } else {
      var j := FirstDifference(a[1..], b[1..]);
      i := j + 1;
      assert a[..i] == [a[0]] + a[1..][..j] && b[..i] == [b[0]] + b[1..][..j];
      assert a[i + 1..] == a[1..][j + 1..] && b[i + 1..] == b[1..][j + 1..];
    }
  }

  lemma {:induction false} NoDistance(a: seq<bool>, b: seq<bool>)
    requires |a| == |b| && Distance(a, b) == 0
    ensures a == b
  {
    if a != [] {
      NoDistance(a[1..], b[1..]);
      assert a == [a[0]] + a[1..] && b == [b[0]] + b[1..];
    }
  }

  lemma TwoFlips(a: seq<bool>, i: nat, j: nat)
    requires i < j < |a|
    ensures var p, m, q := a[..i], a[i + 1..j], a[j + 1..];
            && a == p + ([a[i]] + (m + ([a[j]] + q)))
            && a[i := !a[i]][j := !a[j]] == p + ([!a[i]] + (m + ([!a[j]] + q)))
  {
  }

  /** Two wrong bits go unseen exactly when they are a multiple of the register's
      period apart. */
  lemma TwoErrorsExactly(c: bv16, a: seq<bool>, i: nat, j: nat)
    requires i < j < |a|
    ensures Serial(c, a[i := !a[i]][j := !a[j]]) == Serial(c, a) <==> (j - i) % 32767 == 0
  {
    var p, m, q := a[..i], a[i + 1..j], a[j + 1..];
    var x, y := a[i], a[j];
    TwoFlips(a, i, j);
    FiveParts(c, p, x, m, y, q);
    FiveParts(c, p, !x, m, !y, q);
    var s := Serial(c, p);
    var u, u' := Serial(Take(s, x), m), Serial(Take(s, !x), m);
    hide Serial, Take, Shift, Xor;
    DifferenceShifts(Take(s, x), Take(s, !x), m);
    OneBitApart(s, x);
    ShiftsHead(1, |m|);
    LowBitReturns(j - i);
    TakeMeets(u, u', y);
    if Serial(Take(u, y), q) == Serial(Take(u', !y), q) {
      SerialInjective(Take(u, y), Take(u', !y), q);
    }
  }

  lemma TwoPlaces(a: seq<bool>, b: seq<bool>) returns (i: nat, j: nat)
    requires |a| == |b| && Distance(a, b) == 2
    ensures i < j < |a| && b == a[i := !a[i]][j := !a[j]]
  {
    i := FirstDifference(a, b);
    var a1, b1 := a[i + 1..], b[i + 1..];
    var k := FirstDifference(a1, b1);
    NoDistance(a1[k + 1..], b1[k + 1..]);
    j := i + 1 + k;
    forall n | 0 <= n < |a|
      ensures b[n] == a[i := !a[i]][j := !a[j]][n]
    {
      if n < i {
        assert a[..i][n] == b[..i][n];
      } else if i < n < j {
        assert a1[..k][n - i - 1] == b1[..k][n - i - 1];
      } else if n > j {
        assert a1[k + 1..][n - j - 1] == b1[k + 1..][n - j - 1];
      }
    }
  }

  /** Two streams differing in exactly two places end apart, if they are no longer
      than the register's period. */
  lemma TwoErrorsSeparate(c: bv16, a: seq<bool>, b: seq<bool>)
    requires |a| == |b| <= 32767 && Distance(a, b) == 2
    ensures Serial(c, a) != Serial(c, b)
  {
    var i, j := TwoPlaces(a, b);
    TwoErrorsExactly(c, a, i, j);
  }

  lemma ShiftsHead(c: bv16, n: nat)
    ensures Shifts(c, n + 1) == Shifts(Shift(c), n)
  {
  }

  lemma FiveParts(c: bv16, p: seq<bool>, x: bool, m: seq<bool>, y: bool, q: seq<bool>)
    ensures Serial(c, p + ([x] + (m + ([y] + q)))) == Serial(Take(Serial(Take(Serial(c, p), x), m), y), q)
  {
    hide Take, Serial;
    SerialConcat(c, p, [x] + (m + ([y] + q)));
    var s := Serial(c, p);
    SerialCons(s, x, m + ([y] + q));
    SerialConcat(Take(s, x), m, [y] + q);
    SerialCons(Serial(Take(s, x), m), y, q);
  }

  lemma SerialCons(c: bv16, x: bool, rest: seq<bool>)
    ensures Serial(c, [x] + rest) == Serial(Take(c, x), rest)
  {
    hide Take;
    assert ([x] + rest)[1..] == rest;
  }

  /** Random errors: two frames of one length, at most 4095 bytes, that differ in
      one, two or three bits are never both accepted. A Modbus frame has at most 256. */
  lemma UpToThreeErrorsDetected(f: seq<bv8>, g: seq<bv8>)
    requires |f| == |g| <= 4095 && 1 <= Distance(FrameBits(f), FrameBits(g)) <= 3
    ensures Crc(f) != Crc(g)
    ensures !(Intact(f) && Intact(g))
  {
    if Distance(FrameBits(f), FrameBits(g)) == 2 {
      TwoErrorsSeparate(INIT, FrameBits(f), FrameBits(g));
    } else {
      OddErrorsDetected(f, g);
    }
  }

  // ----- The bounds are exact ---------------------------------------------------------------

  lemma OppositeBits(a: bv16, b: bv16, x: bool)
    ensures Xor(Take(a, x), Take(b, !x)) == Shift(Xor(Xor(a, b), 1))
  {
    ShiftLinear(Xor(a, Bit(x)), Xor(b, Bit(!x)));
    XorRegroup(a, Bit(x), b, Bit(!x));
    assert Xor(Bit(x), Bit(!x)) == 1;
  }

  lemma FourBitSteps()
    ensures Shift(Xor(0, 1)) == 0xA001 && Shift(Xor(0xA001, 1)) == 0x5000
    ensures Shift(Xor(0x0005, 1)) == 0x0002 && Shift(0x0002) == 0x0001 && Shift(Xor(0x0001, 1)) == 0
  {
  }

  lemma TwelveShifts()
    ensures Shifts(0x5000, 12) == 0x0005
  {
    assert Shifts(0x5000, 12) == Shifts(0x0A00, 9);
    assert Shifts(0x0A00, 9) == Shifts(0x0140, 6);
    assert Shifts(0x0140, 6) == Shifts(0x0028, 3) == 0x0005;
  }

  /** Seventeen bits with the first, second, fifteenth and seventeenth flipped:
      the polynomial itself. */
  function FlipFour(m: seq<bool>): (m': seq<bool>)
    requires |m| == 17
    ensures |m'| == 17
  {
    m[0 := !m[0]][1 := !m[1]][14 := !m[14]][16 := !m[16]]
  }

  lemma SeventeenBits(c: bv16, x0: bool, x1: bool, mid: seq<bool>, x14: bool, x15: bool, x16: bool)
    ensures Serial(c, [x0] + ([x1] + (mid + ([x14] + ([x15] + ([x16] + []))))))
            == Take(Take(Take(Serial(Take(Take(c, x0), x1), mid), x14), x15), x16)
  {
    hide Take;
    SerialCons(c, x0, [x1] + (mid + ([x14] + ([x15] + ([x16] + [])))));
    SerialCons(Take(c, x0), x1, mid + ([x14] + ([x15] + ([x16] + []))));
    var u := Take(Take(c, x0), x1);
    SerialConcat(u, mid, [x14] + ([x15] + ([x16] + [])));
    SerialCons(Serial(u, mid), x14, [x15] + ([x16] + []));
    SerialCons(Take(Serial(u, mid), x14), x15, [x16] + []);
    SerialCons(Take(Take(Serial(u, mid), x14), x15), x16, []);
  }

  /** The register does not see the polynomial. */
  lemma FlipFourUnseen(c: bv16, m: seq<bool>)
    requires |m| == 17
    ensures Serial(c, FlipFour(m)) == Serial(c, m)
  {
    var mid := m[2..14];
    assert m == [m[0]] + ([m[1]] + (mid + ([m[14]] + ([m[15]] + ([m[16]] + [])))));
    assert FlipFour(m) == [!m[0]] + ([!m[1]] + (mid + ([!m[14]] + ([m[15]] + ([!m[16]] + [])))));
    SeventeenBits(c, m[0], m[1], mid, m[14], m[15], m[16]);
    SeventeenBits(c, !m[0], !m[1], mid, !m[14], m[15], !m[16]);
    hide Take, Shift, Xor, Serial, FlipFour;
    FourBitSteps();
    TwelveShifts();
    XorWithSelf(c);
    var a1, b1 := Take(c, m[0]), Take(c, !m[0]);
    OppositeBits(c, c, m[0]);
    var a2, b2 := Take(a1, m[1]), Take(b1, !m[1]);
    OppositeBits(a1, b1, m[1]);
    var a3, b3 := Serial(a2, mid), Serial(b2, mid);
    DifferenceShifts(a2, b2, mid);
    var a4, b4 := Take(a3, m[14]), Take(b3, !m[14]);
    OppositeBits(a3, b3, m[14]);
    var a5, b5 := Take(a4, m[15]), Take(b4, m[15]);
    TakeDifference(a4, b4, m[15]);
    OppositeBits(a5, b5, m[16]);
    XorZero(Take(a5, m[16]), Take(b5, !m[16]));
  }

  // ----- Frames from their bits ---------------------------------------------------------------

  function Octet(s: seq<bool>): bv8
    requires |s| == 8
  {
    (if s[0] then 0x01 else 0) | (if s[1] then 0x02 else 0) | (if s[2] then 0x04 else 0) | (if s[3] then 0x08 else 0) |
    (if s[4] then 0x10 else 0) | (if s[5] then 0x20 else 0) | (if s[6] then 0x40 else 0) | (if s[7] then 0x80 else 0)
  }

  lemma OctetBits(s: seq<bool>)
    requires |s| == 8
    ensures Bits(Octet(s)) == s
  {
  }

  lemma {:induction false} FrameOf(bits: seq<bool>) returns (f: seq<bv8>)
    requires |bits| % 8 == 0
    ensures FrameBits(f) == bits
    decreases |bits|
  {
    hide Bits, Octet;
    if bits == [] {
      f := [];
    } else {
      var rest := FrameOf(bits[8..]);
      OctetBits(bits[..8]);
      f := [Octet(bits[..8])] + rest;
      assert f[1..] == rest && bits == bits[..8] + bits[8..];
    }
  }

  lemma StreamUnseen(c: bv16, p: seq<bool>, m: seq<bool>, q: seq<bool>)
    requires |m| == 17
    ensures Serial(c, p + (FlipFour(m) + q)) == Serial(c, p + (m + q))
  {
    hide FlipFour, Serial;
    SerialConcat(c, p, m + q);
    SerialConcat(c, p, FlipFour(m) + q);
    var u := Serial(c, p);
    SerialConcat(u, m, q);
    SerialConcat(u, FlipFour(m), q);
    FlipFourUnseen(u, m);
  }

  lemma StreamChanged(p: seq<bool>, m: seq<bool>, q: seq<bool>)
    requires |m| == 17
    ensures p + (FlipFour(m) + q) != p + (m + q)
  {
    FirstFlipped(m);
    hide FlipFour;
    assert (p + (FlipFour(m) + q))[|p|] == FlipFour(m)[0] && (p + (m + q))[|p|] == m[0];
  }

  lemma {:induction false} FrameLength(f: seq<bv8>, n: nat)
    requires |FrameBits(f)| == 8 * n
    ensures |f| == n
  {
  }

  /** Sixteen and three are exact: wherever seventeen bits fit into a frame, some
      four errors within them turn it into another frame with the same checksum,
      accepted if it is. */
  lemma SeventeenMissed(f: seq<bv8>, at: nat) returns (g: seq<bv8>)
    requires at + 17 <= 8 * |f|
    ensures var bits := FrameBits(f);
            FrameBits(g) == bits[..at] + (FlipFour(bits[at..at + 17]) + bits[at + 17..])
    ensures |g| == |f| && g != f && Crc(g) == Crc(f) && (Intact(g) <==> Intact(f))
  {
    hide FlipFour, Serial, FrameBits;
    var bits := FrameBits(f);
    var p, m, q := bits[..at], bits[at..at + 17], bits[at + 17..];
    g := FrameOf(p + (FlipFour(m) + q));
    FrameLength(g, |f|);
    assert bits == p + (m + q);
    StreamUnseen(INIT, p, m, q);
    StreamChanged(p, m, q);
  }

  lemma FirstFlipped(m: seq<bool>)
    requires |m| == 17
    ensures FlipFour(m)[0] == !m[0]
  {
  }
}
