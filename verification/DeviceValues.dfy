/** What a field's words mean: numbers in two's complement, sentinels, bits. */
module DeviceValues {
  import opened DeviceSchema
  import opened DeviceReads

  // ----- Words as numbers -------------------------------------------------------------

  lemma HighWord(hi: bv16)
    ensures ((hi as bv32) << 16) as int == 0x1_0000 * (hi as int)
  {
  }

  lemma OrLowWord(hi: bv16, lo: bv16)
    ensures (((hi as bv32) << 16) | (lo as bv32)) as int == ((hi as bv32) << 16) as int + (lo as bv32) as int
  {
  }

  lemma WordAsWide(w: bv16)
    ensures (w as bv32) as int == w as int
  {
  }

  lemma WidenWord(w: bv16)
    ensures LongNumber(Widen(w)) == WordNumber(w) < 0x1_0000
  {
    WordAsWide(w);
  }

  lemma PairNumber(hi: bv16, lo: bv16)
    ensures LongNumber(Pair(hi, lo)) == 0x1_0000 * WordNumber(hi) + WordNumber(lo) < 0x1_0000_0000
    ensures WordNumber(lo) < 0x1_0000
  {
    HighWord(hi);
    OrLowWord(hi, lo);
    WordAsWide(lo);
  }

  function High(b: bv32): bv16 {
    (b >> 16) as bv16
  }

  function Low(b: bv32): bv16 {
    (b & 0xFFFF) as bv16
  }

  lemma SplitWords(b: bv32)
    ensures Pair(High(b), Low(b)) == b
  {
  }

  lemma LowAsWord(b: bv32)
    ensures (b & 0xFFFF) as int == ((b & 0xFFFF) as bv16) as int
  {
  }

  lemma LowPartNumber(b: bv32)
    ensures LongNumber(LowPart(b)) == WordNumber(Low(b))
  {
    LowAsWord(b);
  }

  /** Masking to the low word takes the remainder. */
  lemma LowNumber(b: bv32)
    ensures LongNumber(LowPart(b)) == LongNumber(b) % 0x1_0000
  {
    hide LongNumber, WordNumber, Pair, High, Low, LowPart;
    LowPartNumber(b);
    SplitWords(b);
    PairNumber(High(b), Low(b));
  }

  lemma AllOnes(b: bv32)
    ensures WholePart(b) == b
  {
  }

  lemma LongFits(b: bv32)
    ensures LongNumber(b) < 0x1_0000_0000
  {
  }

  lemma SameNumber(b: bv32, n: int)
    requires b as int == n
    ensures n as bv32 == b
  {
  }

  lemma SameBits(a: bv32, b: bv32)
    ensures LongNumber(a) == LongNumber(b) <==> a == b
  {
    SameNumber(a, a as int);
    if LongNumber(a) == LongNumber(b) {
      SameNumber(b, a as int);
    }
  }

  // ----- Numbers ------------------------------------------------------------------------

  /** How many values a type's words can take. */
  function Modulus(t: FieldType): (m: nat)
    ensures m > 0
  {
    if t.UInt32? || t.Int32? then 0x1_0000_0000 else 0x1_0000
  }

  /** The numbers a type can stand for. */
  predicate InType(v: int, t: FieldType) {
    if t.Int16? || t.Int32? then -(Modulus(t) / 2) <= v < Modulus(t) / 2 else 0 <= v < Modulus(t)
  }

  /** The words of a field as one number, high word first. */
  function WireNumber(words: seq<bv16>, t: FieldType): (n: nat)
    requires |words| >= WordSize(t)
  {
    if WordSize(t) == 1 then WordNumber(words[0]) else 0x1_0000 * WordNumber(words[0]) + WordNumber(words[1])
  }

  lemma TwosComplement(n: nat, t: FieldType)
    requires !t.Unknown? && n < Modulus(t)
    ensures t.UInt16? || t.UInt32? ==> InType(n, t) && n % Modulus(t) == n
    ensures t.Int16? ==> var v := if n >= 0x8000 then n - 0x1_0000 else n; InType(v, t) && v % Modulus(t) == n
    ensures t.Int32? ==> var v := if n >= 0x8000_0000 then n - 0x1_0000_0000 else n; InType(v, t) && v % Modulus(t) == n
  {
  }

  lemma WidthModulus(t: FieldType)
    ensures Modulus(t) == if WordSize(t) == 1 then 0x1_0000 else 0x1_0000_0000
  {
  }

  /** Decoding gives a number of the field's type, the only one its words stand
      for in two's complement, and the words themselves as raw bits. */
  lemma DecodedNumber(words: seq<bv16>, t: FieldType)
    requires |words| >= WordSize(t) && !t.Unknown?
    ensures DecodeValue(words, t).Some?
    ensures var (v, raw) := DecodeValue(words, t).value;
            LongNumber(raw) == WireNumber(words, t) && InType(v, t) && v % Modulus(t) == WireNumber(words, t)
  {
    WidthModulus(t);
    hide Pair, Widen, Modulus, InType, WordNumber, LongNumber;
    if WordSize(t) == 1 {
      WidenWord(words[0]);
      TwosComplement(WordNumber(words[0]), t);
    } else {
      PairNumber(words[0], words[1]);
      TwosComplement(LongNumber(Pair(words[0], words[1])), t);
    }
  }

  // ----- Sentinels ------------------------------------------------------------------------

  /** Masking to the field's width takes the remainder. */
  lemma MaskedNumber(b: bv32, t: FieldType)
    ensures LongNumber(Masked(b, t)) == LongNumber(b) % Modulus(t)
  {
    AllOnes(b);
    hide LongNumber, LowPart, WholePart;
    LowNumber(b);
    LongFits(b);
  }

  /** A sentinel matches the raw bits that agree with it in the field's own width. */
  lemma SentinelIsRemainder(f: Field, raw: bv32)
    requires f.sentinel.Some?
    ensures IsSentinel(f, raw)
            <==> LongNumber(raw) % Modulus(f.ftype) == LongNumber(f.sentinel.value) % Modulus(f.ftype)
  {
    hide Masked, Modulus, LongNumber;
    MaskedNumber(raw, f.ftype);
    MaskedNumber(f.sentinel.value, f.ftype);
    SameBits(Masked(raw, f.ftype), Masked(f.sentinel.value, f.ftype));
  }

  lemma SameRemainder(a: int, b: int, t: FieldType)
    requires InType(a, t) && InType(b, t) && a % Modulus(t) == b % Modulus(t)
    ensures a == b
  {
  }

  lemma RemainderOfRemainder(n: int, t: FieldType)
    ensures n % 0x1_0000_0000 % Modulus(t) == n % Modulus(t)
  {
  }

  /** Whatever sentinel a description gives, a field suppresses exactly the words
      that equal it in the field's own width; all else is published, as the number
      the words stand for or as one point per bit field. */
  lemma FieldPublishes(f: Field, words: seq<bv16>)
    requires |words| >= WordSize(f.ftype) && GoodField(f) && !f.ftype.Unknown?
    ensures exists v: int ::
              && InType(v, f.ftype) && v % Modulus(f.ftype) == WireNumber(words, f.ftype)
              && Emitted(f, words) ==
                 (if f.sentinel.Some? && WireNumber(words, f.ftype) == LongNumber(f.sentinel.value) % Modulus(f.ftype) then []
                  else if f.bits == [] then [Point(f.name, f.unit, Scaled(v, f.scale))]
                  else BitPoints(f.bits, words[0]))
  {
    DecodedNumber(words, f.ftype);
    var (v, raw) := DecodeValue(words, f.ftype).value;
    hide DecodeValue, IsSentinel, BitPoints, WireNumber, InType, LongNumber;
    if f.sentinel.Some? {
      SentinelIsRemainder(f, raw);
      SmallRemainder(v, f.ftype);
    }
  }

  /** In particular a sentinel that stands for a number `n` of the field's type,
      negative or not, suppresses exactly that number. */
  lemma NumberSuppressed(f: Field, words: seq<bv16>, n: int)
    requires |words| >= WordSize(f.ftype) && GoodField(f) && !f.ftype.Unknown? && f.sentinel.Some?
    requires InType(n, f.ftype) && LongNumber(f.sentinel.value) == n % 0x1_0000_0000
    ensures exists v: int ::
              && InType(v, f.ftype) && v % Modulus(f.ftype) == WireNumber(words, f.ftype)
              && (Emitted(f, words) == [] <==> v == n)
  {
    FieldPublishes(f, words);
    DecodedNumber(words, f.ftype);
    var v := DecodeValue(words, f.ftype).value.0;
    hide DecodeValue, Emitted, BitPoints, WireNumber, InType, LongNumber;
    RemainderOfRemainder(n, f.ftype);
    if v % Modulus(f.ftype) == n % Modulus(f.ftype) {
      SameRemainder(v, n, f.ftype);
    }
    if f.bits != [] {
      OnePointPerBit(f.bits, words[0]);
    }
  }

  lemma OnePointPerBit(bits: seq<BitField>, word: bv16)
    requires bits != [] && forall b | b in bits :: b.shift < 16
    ensures BitPoints(bits, word) != []
  {
  }

  lemma SmallRemainder(v: int, t: FieldType)
    ensures v % Modulus(t) % Modulus(t) == v % Modulus(t)
  {
  }

  // ----- Bits --------------------------------------------------------------------------------

  predicate Odd(m: bv16) {
    m & 1 == 1
  }

  lemma HalfOfEven(m: bv16)
    ensures !Odd(m) ==> Double(Half(m)) == m
    ensures !Odd(m) && m != 0 ==> Half(m) != 0
  {
  }

  lemma {:induction false} DownNext(word: bv16, n: nat)
    ensures Down(word, n + 1) == Half(Down(word, n))
    decreases n
  {
    hide Half;
    if n > 0 {
      DownNext(Half(word), n - 1);
    }
  }

  lemma {:induction false} UpNext(word: bv16, n: nat)
    ensures Up(Double(word), n) == Up(word, n + 1)
  {
    hide Double;
    if n > 0 {
      UpNext(word, n - 1);
    }
  }

  lemma FourHalves(word: bv16)
    ensures Half(Half(Half(Half(word)))) == word >> 4
  {
  }

  lemma DownFour(word: bv16, n: nat)
    ensures Down(word, n + 4) == Down(word >> 4, n)
  {
    FourHalves(word);
    hide Half;
    assert Down(word, n + 4) == Down(Half(word), n + 3) == Down(Half(Half(word)), n + 2);
    assert Down(Half(Half(word)), n + 2) == Down(Half(Half(Half(word))), n + 1);
  }

  lemma SixteenDown(word: bv16)
    ensures Down(word, 16) == 0
  {
    DownFour(word, 12);
    DownFour(word >> 4, 8);
    DownFour(word >> 4 >> 4, 4);
    DownFour(word >> 4 >> 4 >> 4, 0);
    AllGone(word);
  }

  lemma AllGone(word: bv16)
    ensures word >> 4 >> 4 >> 4 >> 4 == 0
  {
  }

  /** The shift of a mask given without one: its trailing zeros. */
  method DefaultShift(mask: bv16) returns (shift: nat)
    requires mask != 0
    ensures shift < 16 && Odd(Down(mask, shift)) && Up(Down(mask, shift), shift) == mask
  {
    var m := mask;
    shift := 0;
    assert Down(mask, 0) == mask == Up(mask, 0);
    hide Odd, Down, Up, Half, Double;
    while !Odd(m) && shift < 16
      invariant shift <= 16 && m != 0 && m == Down(mask, shift) && Up(m, shift) == mask
      decreases 16 - shift
    {
      HalfOfEven(m);
      DownNext(mask, shift);
      UpNext(Half(m), shift);
      m := Half(m);
      shift := shift + 1;
    }
    SixteenDown(mask);
  }

  predicate Inside(a: bv16, b: bv16) {
    a & !b == 0
  }

  lemma InsideHalf(x: bv16, word: bv16)
    requires Inside(x, Half(word))
    ensures Inside(Double(x), word)
    ensures Half(Double(x)) == x
  {
  }

  lemma InsideSelf(word: bv16)
    ensures Inside(word, word)
  {
  }

  /** Down and up again leaves a part of the word. */
  lemma {:induction false} DownUpInside(word: bv16, n: nat)
    ensures Inside(Up(Down(word, n), n), word)
    decreases n
  {
    hide Inside, Half, Double;
    if n == 0 {
      InsideSelf(word);
    } else {
      DownUpInside(Half(word), n - 1);
      InsideHalf(Up(Down(Half(word), n - 1), n - 1), word);
    }
  }

  lemma HalfUnder(word: bv16, mask: bv16)
    ensures Half(Under(word, mask)) == Under(Half(word), Half(mask))
  {
  }

  lemma DoubleUnder(word: bv16, x: bv16)
    requires Half(Double(x)) == x
    ensures Double(Under(Half(word), x)) == Under(word, Double(x))
  {
  }

  lemma {:induction false} MaskedDownUp(word: bv16, mask: bv16, n: nat)
    requires Up(Down(mask, n), n) == mask
    ensures Up(Down(Under(word, mask), n), n) == Under(word, mask)
    decreases n
  {
    hide Inside, Half, Double, Under;
    if n > 0 {
      var x := Up(Down(Half(mask), n - 1), n - 1);
      DownUpInside(Half(mask), n - 1);
      InsideHalf(x, mask);
      HalfUnder(word, mask);
      MaskedDownUp(Half(word), Half(mask), n - 1);
      DoubleUnder(word, x);
    }
  }

  lemma {:induction false} DownUnder(word: bv16, mask: bv16, n: nat)
    ensures Down(Under(word, mask), n) == Under(Down(word, n), Down(mask, n))
    decreases n
  {
    hide Half, Under;
    if n > 0 {
      HalfUnder(word, mask);
      DownUnder(Half(word), Half(mask), n - 1);
    }
  }

  /** A bit field publishes the word's bits under its mask, moved down; moved up
      again they are where they were, if the shift loses no bit of the mask. */
  lemma ExtractKeepsBits(word: bv16, b: BitField)
    ensures Extract(word, b) == Under(Down(word, b.shift), Down(b.mask, b.shift))
    ensures Up(Down(b.mask, b.shift), b.shift) == b.mask ==> Up(Extract(word, b), b.shift) == word & b.mask
  {
    DownUnder(word, b.mask, b.shift);
    assert Under(word, b.mask) == word & b.mask;
    hide Down, Up, Under;
    if Up(Down(b.mask, b.shift), b.shift) == b.mask {
      MaskedDownUp(word, b.mask, b.shift);
    }
  }

  /** In particular a single-bit field publishes 1 exactly when its bit is set, and 0 otherwise. */
  lemma FlagIsZeroOrOne(word: bv16, b: BitField)
    requires b.mask != 0 && Down(b.mask, b.shift) == 1 && Up(1, b.shift) == b.mask
    ensures Extract(word, b) == if word & b.mask != 0 then 1 else 0
  {
    ExtractKeepsBits(word, b);
    LastBit(Down(word, b.shift));
    UpZero(b.shift);
    hide Down, Up, Extract, Under;
  }

  lemma LastBit(x: bv16)
    ensures Under(x, 1) == 0 || Under(x, 1) == 1
  {
  }

  lemma {:induction false} UpZero(n: nat)
    ensures Up(0, n) == 0
  {
    if n > 0 {
      UpZero(n - 1);
    }
  }

  // ----- What a bit point carries -------------------------------------------------------

  lemma OneLess(n: bv4)
    requires 0 < n
    ensures (n - 1) as int == n as int - 1
  {
  }

  function Shr(word: bv16, n: bv4): bv16 {
    word >> n
  }

  function Shl(word: bv16, n: bv4): bv16 {
    word << n
  }

  lemma RightSplits(word: bv16, n: bv4)
    requires 0 < n
    ensures Half(Shr(word, n - 1)) == Shr(word, n)
  {
  }

  lemma LeftSplits(word: bv16, n: bv4)
    requires 0 < n
    ensures Double(Shl(word, n - 1)) == Shl(word, n)
  {
  }

  lemma NoShift(word: bv16)
    ensures Shr(word, 0) == word == Shl(word, 0)
  {
  }

  /** Moving by single places is shifting, for every shift a description can give. */
  lemma {:induction false} MovesAreShifts(word: bv16, n: bv4)
    ensures Down(word, n as int) == Shr(word, n) && Up(word, n as int) == Shl(word, n)
    decreases n as int
  {
    hide Shr, Shl, Half, Double;
    if n == 0 {
      NoShift(word);
    } else {
      OneLess(n);
      RightSplits(word, n);
      LeftSplits(word, n);
      DownNext(word, (n - 1) as int);
      MovesAreShifts(word, n - 1);
    }
  }

  lemma {:induction false} BitPointAt(bits: seq<BitField>, word: bv16, i: nat)
    requires i < |bits| && forall b | b in bits :: b.shift < 16
    ensures |BitPoints(bits, word)| == |bits|
    ensures BitPoints(bits, word)[i] == Point(bits[i].name, "", Extracted(Extract(word, bits[i])))
  {
    hide Extract;
    var init := bits[..|bits| - 1];
    if i < |init| {
      BitPointAt(init, word, i);
    } else if init != [] {
      BitPointAt(init, word, 0);
    }
  }

  /** The i-th point of a field with bits, unless its words are suppressed: named
      after the i-th bit, it carries the masked bits moved down to the right. Moved
      back up by the shift they are what the mask lets through, if the shift loses
      none of it; under a mask of one bit they are 1 or 0. */
  lemma BitPointCarries(f: Field, words: seq<bv16>, i: nat, n: bv4)
    requires |words| >= WordSize(f.ftype) && GoodField(f) && Emitted(f, words) != []
    requires i < |f.bits| && f.bits[i].shift == n as int
    ensures |Emitted(f, words)| == |f.bits|
    ensures var p, b := Emitted(f, words)[i], f.bits[i];
            && p.name == b.name && p.unit == "" && p.value.Extracted?
            && p.value.bits == Under(Shr(words[0], n), Shr(b.mask, n))
            && (Shl(Shr(b.mask, n), n) == b.mask ==> Shl(p.value.bits, n) == Under(words[0], b.mask))
            && (b.mask == Shl(1, n) ==> p.value.bits == if Under(words[0], b.mask) != 0 then 1 else 0)
  {
    var b := f.bits[i];
    BitPointAt(f.bits, words[0], i);
    ExtractShifts(words[0], b, n);
    hide BitPoints, Extract, DecodeValue, IsSentinel, GoodField, Shr, Shl, Under;
  }

  lemma ExtractShifts(word: bv16, b: BitField, n: bv4)
    requires b.shift == n as int
    ensures Extract(word, b) == Under(Shr(word, n), Shr(b.mask, n))
    ensures Shl(Shr(b.mask, n), n) == b.mask ==> Shl(Extract(word, b), n) == Under(word, b.mask)
    ensures b.mask == Shl(1, n) ==> Extract(word, b) == if Under(word, b.mask) != 0 then 1 else 0
  {
    hide Down, Up, Extract, Under, Shr, Shl;
    ExtractKeepsBits(word, b);
    UnderIsAnd(word, b.mask);
    MovesAreShifts(word, n);
    MovesAreShifts(b.mask, n);
    MovesAreShifts(Shr(b.mask, n), n);
    MovesAreShifts(Extract(word, b), n);
    MovesAreShifts(1, n);
    if b.mask == Shl(1, n) {
      OneBitBack(n);
      FlagIsZeroOrOne(word, b);
    }
  }

  lemma UnderIsAnd(a: bv16, b: bv16)
    ensures Under(a, b) == a & b
  {
  }

  lemma OneBitBack(n: bv4)
    ensures Shr(Shl(1, n), n) == 1 && Shl(1, n) != 0
  {
  }

  /** The fault bit and the operating state of an alarm word of 0x00A4, say: the
      third bit is published as 1, and the second hex digit as 10. */
  lemma BitExamples()
    ensures BitPoints([BitField(0x0004, 2, "fault"), BitField(0x00F0, 4, "state")], 0x00A4)
            == [Point("fault", "", Extracted(1)), Point("state", "", Extracted(10))]
  {
    var fault, state := BitField(0x0004, 2, "fault"), BitField(0x00F0, 4, "state");
    DownInFigures();
    hide Down;
    assert Extract(0x00A4, fault) == 1 && Extract(0x00A4, state) == 10;
    hide Extract;
    BitPointAt([fault, state], 0x00A4, 0);
    BitPointAt([fault, state], 0x00A4, 1);
  }

  lemma DownInFigures()
    ensures Down(0x0004, 2) == 1 && Down(0x00A0, 4) == 10
  {
    assert Down(0x0004, 2) == Down(0x0002, 1) == Down(0x0001, 0);
    assert Down(0x00A0, 4) == Down(0x0050, 3) == Down(0x0028, 2);
    assert Down(0x0028, 2) == Down(0x0014, 1) == Down(0x000A, 0);
  }
}
