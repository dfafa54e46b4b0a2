/** Computing and checking the checksum over byte buffers. */
module ModbusChecksum {
  import opened ModbusCrc
  import opened ModbusErrors

  // ----- Bytes and words --------------------------------------------------------

  function Hi(w: bv16): bv8 {
    ((w >> 8) & 0xFF) as bv8
  }

  function Lo(w: bv16): bv8 {
    (w & 0xFF) as bv8
  }

  function Join16(hi: bv8, lo: bv8): bv16 {
    ((hi as bv16) << 8) | (lo as bv16)
  }

  lemma JoinSplit(w: bv16)
    ensures Join16(Hi(w), Lo(w)) == w
  {
  }

  lemma SplitJoin(hi: bv8, lo: bv8)
    ensures Hi(Join16(hi, lo)) == hi && Lo(Join16(hi, lo)) == lo
  {
  }

  // ----- The checksum -------------------------------------------------------------

  lemma {:induction false} FrameBitsConcat(a: seq<bv8>, b: seq<bv8>)
    ensures FrameBits(a + b) == FrameBits(a) + FrameBits(b)
  {
    if a == [] {
      assert a + b == b;
    } else {
      assert (a + b)[1..] == a[1..] + b;
      FrameBitsConcat(a[1..], b);
      assert Bits(a[0]) + (FrameBits(a[1..]) + FrameBits(b)) == (Bits(a[0]) + FrameBits(a[1..])) + FrameBits(b);
    }
  }

  /** Eight shifts after adding a byte take its bits in one by one. */
  lemma ByteIsEightShifts(c: bv16, b: bv8)
    ensures Shifts(Xor(c, b as bv16), 8) == Serial(c, Bits(b))
  {
    WordOfByte(b);
    SerialIsShifts(c, Bits(b));
  }

  lemma CrcOfOneMore(c: bv16, frame: seq<bv8>, b: bv8)
    ensures Serial(c, FrameBits(frame + [b])) == Serial(Serial(c, FrameBits(frame)), Bits(b))
  {
    FrameBitsConcat(frame, [b]);
    assert FrameBits([b]) == Bits(b) + FrameBits([]);
    assert FrameBits([b]) == Bits(b);
    SerialConcat(c, FrameBits(frame), Bits(b));
  }

  lemma StepIsShift(c: bv16)
    ensures Shift(c) == if c & 0x0001 != 0 then (c >> 1) ^ 0xA001 else c >> 1
  {
  }

  /** The inner loop: one byte into the register. */
  method TakeByte(before: bv16, b: bv8) returns (crc: bv16)
    ensures crc == Serial(before, Bits(b))
  {
    crc := before ^ (b as bv16);
    assert crc == Xor(before, b as bv16);
    hide Shift, Xor, Bits, Serial;
    var j := 0;
    while j < 8
      invariant j <= 8
      invariant Shifts(crc, 8 - j) == Shifts(Xor(before, b as bv16), 8)
    {
      StepIsShift(crc);
      if crc & 0x0001 != 0 {
        crc := (crc >> 1) ^ 0xA001;
      } else {
        crc := crc >> 1;
      }
      j := j + 1;
    }
    ByteIsEightShifts(before, b);
  }

  /** The checksum of the first `length` bytes of a buffer. */
  method CalculateCRC(data: array<bv8>, length: nat) returns (crc: bv16)
    requires length <= data.Length
    ensures crc == Crc(data[..length])
  {
    hide Bits;
    crc := 0xFFFF;
    var i := 0;
    while i < length
      invariant i <= length
      invariant crc == Serial(INIT, FrameBits(data[..i]))
    {
      crc := TakeByte(crc, data[i]);
      CrcOfOneMore(INIT, data[..i], data[i]);
      assert data[..i + 1] == data[..i] + [data[i]];
      i := i + 1;
    }
  }

  lemma WordOnto(bits: seq<bool>, rest: seq<bool>)
    requires |bits| == 8
    ensures Word(bits + rest)
            == Join(Join(Join(Join(Join(Join(Join(Join(Word(rest), bits[7]), bits[6]), bits[5]), bits[4]), bits[3]), bits[2]), bits[1]), bits[0])
  {
    hide Join;
    var s := bits + rest;
    assert s[0..] == s && s[8..] == rest;
    WordStep(s, 0);
    WordStep(s, 1);
    WordStep(s, 2);
    WordStep(s, 3);
    WordStep(s, 4);
    WordStep(s, 5);
    WordStep(s, 6);
    WordStep(s, 7);
  }

  lemma BitsJoinOnto(lo: bv8, hi: bv8)
    ensures var s := Bits(lo);
            Join(Join(Join(Join(Join(Join(Join(Join(hi as bv16, s[7]), s[6]), s[5]), s[4]), s[3]), s[2]), s[1]), s[0])
            == Join16(hi, lo)
  {
  }

  /** Two checksum bytes cancel the register exactly when they are its value, low byte first. */
  lemma TrailerCancels(c: bv16, lo: bv8, hi: bv8)
    ensures Serial(Serial(c, Bits(lo)), Bits(hi)) == 0 <==> c == Join16(hi, lo)
  {
    hide Join, Bits, Word, Xor, Serial, Shifts, Join16;
    var bits := Bits(lo) + Bits(hi);
    SerialConcat(c, Bits(lo), Bits(hi));
    SerialIsShifts(c, bits);
    WordOnto(Bits(lo), Bits(hi));
    WordOfByte(hi);
    BitsJoinOnto(lo, hi);
    ShiftsZero(16);
    if Serial(c, bits) == 0 {
      ShiftsInjective(Xor(c, Word(bits)), 0, 16);
    }
    XorZero(c, Word(bits));
  }

  /** The trailer test and "nothing is left" accept the same frames. */
  lemma IntactIffTrailer(frame: seq<bv8>)
    requires |frame| >= 3
    ensures var n := |frame| - 2;
            Intact(frame) <==> Crc(frame[..n]) == Join16(frame[n + 1], frame[n])
  {
    var n := |frame| - 2;
    CrcOfOneMore(INIT, frame[..n], frame[n]);
    CrcOfOneMore(INIT, frame[..n + 1], frame[n + 1]);
    assert frame[..n + 1] == frame[..n] + [frame[n]] && frame == frame[..n + 1] + [frame[n + 1]];
    TrailerCancels(Crc(frame[..n]), frame[n], frame[n + 1]);
  }

  method ValidateCRC(frame: array<bv8>, length: nat) returns (ok: bool)
    requires length <= frame.Length
    ensures ok <==> Intact(frame[..length])
  {
    if length < 3 {
      return false;
    }
    var receivedCRC: bv16 := (frame[length - 2] as bv16) | ((frame[length - 1] as bv16) << 8);
    var calculatedCRC := CalculateCRC(frame, length - 2);
    IntactIffTrailer(frame[..length]);
    assert frame[..length][..length - 2] == frame[..length - 2];
    assert receivedCRC == Join16(frame[length - 1], frame[length - 2]);
    ok := receivedCRC == calculatedCRC;
  }

  // ----- The start value ----------------------------------------------------------

  lemma ClearBit(c: bv16)
    ensures Take(c, false) == Shift(c)
  {
    assert Xor(c, 0) == c;
  }

  lemma {:induction false} NoBits(c: bv16, bits: seq<bool>)
    requires forall i | 0 <= i < |bits| :: !bits[i]
    ensures Serial(c, bits) == Shifts(c, |bits|)
    decreases bits
  {
    hide Take, Shift;
    if bits != [] {
      ClearBit(c);
      NoBits(Shift(c), bits[1..]);
    }
  }

  lemma ZeroByte()
    ensures Bits(0) == seq(8, _ => false)
  {
  }

  lemma {:induction false} ZeroBits(f: seq<bv8>)
    requires forall i | 0 <= i < |f| :: f[i] == 0
    ensures forall i | 0 <= i < |FrameBits(f)| :: !FrameBits(f)[i]
  {
    hide Bits;
    if f != [] {
      ZeroByte();
      ZeroBits(f[1..]);
    }
  }

  /** A line that is stuck at zero is never taken for a frame, however long. */
  lemma StuckLineRefused(f: seq<bv8>)
    requires forall i | 0 <= i < |f| :: f[i] == 0
    ensures !Intact(f)
  {
    var n := |FrameBits(f)|;
    ZeroBits(f);
    NoBits(INIT, FrameBits(f));
    ShiftsZero(n);
    hide Shifts, Serial, FrameBits;
    if Crc(f) == 0 {
      ShiftsInjective(INIT, 0, n);
    }
  }

  function Eight(c: bv16): bv16 {
    Shift(Shift(Shift(Shift(Shift(Shift(Shift(Shift(c))))))))
  }

  lemma EightShifts(c: bv16)
    ensures Shifts(c, 8) == Eight(c)
  {
    hide Shift;
    assert Shifts(c, 8) == Shifts(Shift(Shift(Shift(Shift(c)))), 4);
  }

  /** One byte more, in figures. */
  lemma NextByteIs(frame: seq<bv8>, b: bv8, c: bv16, w: bv16, c': bv16)
    requires Crc(frame) == c && Xor(c, b as bv16) == w && Eight(w) == c'
    ensures Crc(frame + [b]) == c'
  {
    hide Shift, Eight, Bits, Xor, Serial, FrameBits;
    CrcOfOneMore(INIT, frame, b);
    ByteIsEightShifts(c, b);
    EightShifts(w);
  }

  lemma ExampleSteps()
    ensures Xor(0xFFFF, 0x02) == 0xFFFD && Eight(0xFFFD) == 0x813E
    ensures Xor(0x813E, 0x07) == 0x8139 && Eight(0x8139) == 0x1241
  {
  }

  /** The worked example of MODBUS over Serial Line V1.02, section 6.2.2. */
  lemma StandardExample()
    ensures Crc([0x02, 0x07]) == 0x1241
  {
    assert Crc([]) == 0xFFFF;
    hide Crc, Eight, Xor;
    ExampleSteps();
    NextByteIs([], 0x02, 0xFFFF, 0xFFFD, 0x813E);
    NextByteIs([0x02], 0x07, 0x813E, 0x8139, 0x1241);
    assert [] + [0x02] == [0x02] && [0x02] + [0x07] == [0x02, 0x07];
  }

  /** No other start value meets it. */
  lemma StartIsForced(c: bv16)
    ensures Serial(c, FrameBits([0x02, 0x07])) == 0x1241 <==> c == 0xFFFF
  {
    StandardExample();
    hide Serial, FrameBits;
    if Serial(c, FrameBits([0x02, 0x07])) == 0x1241 {
      SerialInjective(c, INIT, FrameBits([0x02, 0x07]));
    }
  }
}
