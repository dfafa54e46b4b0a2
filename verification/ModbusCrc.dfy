/** The Modbus RTU checksum: what it computes bit by bit, and which transmission
    errors it cannot miss. */
module ModbusCrc {

  // ----- One bit step ---------------------------------------------------------

  /** Shift right; on a carry, subtract the polynomial 0xA001. */
  function Shift(c: bv16): bv16 {
    if c & 1 == 1 then (c >> 1) ^ 0xA001 else c >> 1
  }

  function Halved(c: bv16): bv16 {
    c >> 1
  }

  predicate Carry(c: bv16) {
    c & 1 == 1
  }

  function MinusPoly(c: bv16): bv16 {
    c ^ 0xA001
  }

  lemma ShiftParts(c: bv16)
    ensures Shift(c) == if Carry(c) then MinusPoly(Halved(c)) else Halved(c)
  {
  }

  function Bit(b: bool): bv16 {
    if b then 1 else 0
  }

  function Xor(a: bv16, b: bv16): bv16 {
    a ^ b
  }

  /** Taking in one bit. */
  function Take(c: bv16, b: bool): bv16 {
    Shift(Xor(c, Bit(b)))
  }

  /** `n` steps with no input. */
  function Shifts(c: bv16, n: nat): bv16
    decreases n
  {
    if n == 0 then c else Shifts(Shift(c), n - 1)
  }

  /** The register after taking in a stream of bits, first bit first. */
  function Serial(c: bv16, bits: seq<bool>): bv16
    decreases bits
  {
    if bits == [] then c else Serial(Take(c, bits[0]), bits[1..])
  }

  /** `b` below the bits of `w`. */
  function Join(w: bv16, b: bool): bv16 {
    (w << 1) | Bit(b)
  }

  /** The word whose low bits are `bits`, first bit lowest. */
  function Word(bits: seq<bool>): bv16 {
    if bits == [] then 0 else Join(Word(bits[1..]), bits[0])
  }

  /** The bits of a byte in the order they go down the wire. */
  function Bits(b: bv8): (bs: seq<bool>)
    ensures |bs| == 8
  {
    [b & 0x01 != 0, b & 0x02 != 0, b & 0x04 != 0, b & 0x08 != 0,
     b & 0x10 != 0, b & 0x20 != 0, b & 0x40 != 0, b & 0x80 != 0]
  }

  function FrameBits(frame: seq<bv8>): (bs: seq<bool>)
    ensures |bs| == 8 * |frame|
  {
    if frame == [] then [] else Bits(frame[0]) + FrameBits(frame[1..])
  }

  const INIT: bv16 := 0xFFFF

  /** The checksum of a frame, as a serial register computes it. */
  function Crc(frame: seq<bv8>): bv16 {
    Serial(INIT, FrameBits(frame))
  }

  // ----- The step is a bijection --------------------------------------------------

  lemma ShiftInjective(a: bv16, b: bv16)
    requires Shift(a) == Shift(b)
    ensures a == b
  {
  }

  lemma TakeInjective(a: bv16, b: bv16, x: bool)
    requires Take(a, x) == Take(b, x)
    ensures a == b
  {
    ShiftInjective(Xor(a, Bit(x)), Xor(b, Bit(x)));
  }

  lemma XorCancels(c: bv16, a: bv16, b: bv16)
    requires Xor(c, a) == Xor(c, b)
    ensures a == b
  {
  }

  lemma {:induction false} ShiftsInjective(a: bv16, b: bv16, n: nat)
    requires Shifts(a, n) == Shifts(b, n)
    ensures a == b
    decreases n
  {
    hide Shift;
    if n > 0 {
      ShiftsInjective(Shift(a), Shift(b), n - 1);
      ShiftInjective(a, b);
    }
  }

  lemma {:induction false} ShiftsZero(n: nat)
    ensures Shifts(0, n) == 0
  {
    if n > 0 {
      ShiftsZero(n - 1);
    }
  }

  /** The state is recoverable from any later state and the bits in between. */
  lemma {:induction false} SerialInjective(a: bv16, b: bv16, bits: seq<bool>)
    requires Serial(a, bits) == Serial(b, bits)
    ensures a == b
    decreases bits
  {
    hide Take;
    if bits != [] {
      SerialInjective(Take(a, bits[0]), Take(b, bits[0]), bits[1..]);
      TakeInjective(a, b, bits[0]);
    }
  }

  lemma {:induction false} SerialConcat(c: bv16, a: seq<bool>, b: seq<bool>)
    ensures Serial(c, a + b) == Serial(Serial(c, a), b)
    decreases a
  {
    hide Take;
    if a == [] {
      assert a + b == b;
    } else {
      assert (a + b)[1..] == a[1..] + b;
      SerialConcat(Take(c, a[0]), a[1..], b);
    }
  }

  // ----- Sixteen serial steps are sixteen steps on a word ---------------------------

  predicate Within(a: bv16, b: bv16) {
    a & !b == 0
  }

  /** The word with its low `n` bits set. */
  function Low(n: nat): bv16 {
    if n == 0 then 0 else Join(Low(n - 1), true)
  }

  lemma JoinWithin(w: bv16, m: bv16, b: bool)
    requires Within(w, m)
    ensures Within(Join(w, b), Join(m, true))
  {
    if b {
      assert ((w << 1) | 1) & !((m << 1) | 1) == 0;
    } else {
      assert (w << 1) & !((m << 1) | 1) == 0;
    }
  }

  lemma WithinTrans(a: bv16, b: bv16, c: bv16)
    requires Within(a, b) && Within(b, c)
    ensures Within(a, c)
  {
  }

  lemma {:induction false} WordWithin(bits: seq<bool>)
    ensures Within(Word(bits), Low(|bits|))
  {
    if bits == [] {
    } else {
      hide Join, Within;
      WordWithin(bits[1..]);
      JoinWithin(Word(bits[1..]), Low(|bits| - 1), bits[0]);
    }
  }

  lemma {:induction false} LowGrows(n: nat)
    ensures Within(Low(n), Low(n + 1))
  {
    if n > 0 {
      hide Join, Within;
      LowGrows(n - 1);
      JoinWithin(Low(n - 1), Low(n), true);
    }
  }

  lemma {:induction false} LowWithin15(n: nat)
    requires n <= 15
    ensures Within(Low(n), 0x7FFF)
    decreases 15 - n
  {
    if n == 15 {
      assert Low(3) == 7 && Low(6) == 0x3F && Low(9) == 0x1FF && Low(12) == 0xFFF;
      assert Low(15) == 0x7FFF;
    } else {
      LowWithin15(n + 1);
      LowGrows(n);
      WithinTrans(Low(n), Low(n + 1), 0x7FFF);
    }
  }

  lemma ShortWord(bits: seq<bool>)
    requires |bits| <= 15
    ensures Within(Word(bits), 0x7FFF)
  {
    hide Within, Low;
    WordWithin(bits);
    LowWithin15(|bits|);
    WithinTrans(Word(bits), Low(|bits|), 0x7FFF);
  }

  lemma JoinHalved(c: bv16, b: bool, w: bv16)
    requires Within(w, 0x7FFF)
    ensures Halved(Xor(c, Join(w, b))) == Xor(Halved(Xor(c, Bit(b))), w)
  {
  }

  lemma JoinCarry(c: bv16, b: bool, w: bv16)
    ensures Carry(Xor(c, Join(w, b))) == Carry(Xor(c, Bit(b)))
  {
  }

  lemma PolyMoves(a: bv16, b: bv16)
    ensures Xor(MinusPoly(a), b) == MinusPoly(Xor(a, b))
  {
  }

  lemma TakeOver(c: bv16, b: bool, w: bv16)
    requires Within(w, 0x7FFF)
    ensures Xor(Take(c, b), w) == Shift(Xor(c, Join(w, b)))
  {
    hide Halved, Carry, MinusPoly, Xor, Join, Within, Bit, Shift;
    ShiftParts(Xor(c, Bit(b)));
    ShiftParts(Xor(c, Join(w, b)));
    JoinHalved(c, b, w);
    JoinCarry(c, b, w);
    PolyMoves(Halved(Xor(c, Bit(b))), w);
  }

  /** Up to sixteen bits taken in one at a time are the same as the whole word
      taken in at once and then shifted through. */
  lemma {:induction false} SerialIsShifts(c: bv16, bits: seq<bool>)
    requires |bits| <= 16
    ensures Serial(c, bits) == Shifts(Xor(c, Word(bits)), |bits|)
    decreases bits
  {
    if bits == [] {
      assert Xor(c, 0) == c;
    } else {
      hide Xor, Take, Shift, Join, Within;
      ShortWord(bits[1..]);
      TakeOver(c, bits[0], Word(bits[1..]));
      SerialIsShifts(Take(c, bits[0]), bits[1..]);
    }
  }

  lemma JoinInjective(a: bv16, b: bv16, x: bool, y: bool)
    requires Within(a, 0x7FFF) && Within(b, 0x7FFF) && Join(a, x) == Join(b, y)
    ensures a == b && x == y
  {
  }

  lemma {:induction false} WordInjective(a: seq<bool>, b: seq<bool>)
    requires |a| == |b| <= 16 && Word(a) == Word(b)
    ensures a == b
  {
    hide Join, Within;
    if a != [] {
      ShortWord(a[1..]);
      ShortWord(b[1..]);
      JoinInjective(Word(a[1..]), Word(b[1..]), a[0], b[0]);
      WordInjective(a[1..], b[1..]);
      assert a == [a[0]] + a[1..] && b == [b[0]] + b[1..];
    }
  }

  lemma WordStep(s: seq<bool>, k: nat)
    requires k < |s|
    ensures Word(s[k..]) == Join(Word(s[k + 1..]), s[k])
  {
    assert s[k..][1..] == s[k + 1..];
  }

  lemma WordOfEight(s: seq<bool>)
    requires |s| == 8
    ensures Word(s) == Join(Join(Join(Join(Join(Join(Join(Join(0, s[7]), s[6]), s[5]), s[4]), s[3]), s[2]), s[1]), s[0])
  {
    assert s[0..] == s && s[8..] == [] && Word([]) == 0;
    hide Join, Word;
    WordStep(s, 0);
    WordStep(s, 1);
    WordStep(s, 2);
    WordStep(s, 3);
    WordStep(s, 4);
    WordStep(s, 5);
    WordStep(s, 6);
    WordStep(s, 7);
  }

  lemma BitsRejoin(b: bv8)
    ensures var s := Bits(b);
            Join(Join(Join(Join(Join(Join(Join(Join(0, s[7]), s[6]), s[5]), s[4]), s[3]), s[2]), s[1]), s[0]) == b as bv16
  {
  }

  lemma WordOfByte(b: bv8)
    ensures Word(Bits(b)) == b as bv16
  {
    hide Join, Bits, Word;
    WordOfEight(Bits(b));
    BitsRejoin(b);
  }
}
