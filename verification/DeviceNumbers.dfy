/** Integers written as strings in a device description. */
module DeviceNumbers {

  import opened MachineTypes

  // ----- Numerals ------------------------------------------------------------------

  function DigitOf(c: char): Option<nat> {
    if '0' <= c <= '9' then Some((c as int) - ('0' as int))
    else if 'a' <= c <= 'f' then Some((c as int) - ('a' as int) + 10)
    else if 'A' <= c <= 'F' then Some((c as int) - ('A' as int) + 10)
    else None
  }

  predicate IsDigit(c: char, base: nat) {
    DigitOf(c).Some? && DigitOf(c).value < base
  }

  function Numeral(d: nat): char
    requires d < 16
  {
    "0123456789abcdef"[d]
  }

  predicate AllDigits(s: string, base: nat) {
    forall i | 0 <= i < |s| :: IsDigit(s[i], base)
  }

  /** The number a string of digits stands for. */
  function Value(s: string, base: nat): nat
    requires AllDigits(s, base)
  {
    if s == [] then 0 else Value(s[..|s| - 1], base) * base + DigitOf(s[|s| - 1]).value
  }

  /** A number in the given base, without leading zeros. */
  function Show(n: nat, base: nat): (s: string)
    requires 2 <= base <= 16
    ensures s != []
    decreases n
  {
    if n < base then [Numeral(n)] else Show(n / base, base) + [Numeral(n % base)]
  }

  lemma NumeralDigit(d: nat)
    requires d < 16
    ensures DigitOf(Numeral(d)) == Some(d)
    ensures d > 0 ==> Numeral(d) != '0'
  {
  }

  lemma ValueAppend(t: string, c: char, base: nat)
    requires AllDigits(t, base) && IsDigit(c, base)
    ensures AllDigits(t + [c], base) && Value(t + [c], base) == Value(t, base) * base + DigitOf(c).value
  {
    hide DigitOf, IsDigit;
    assert (t + [c])[..|t|] == t;
  }

  lemma OneDigit(c: char, base: nat)
    requires IsDigit(c, base)
    ensures AllDigits([c], base) && Value([c], base) == DigitOf(c).value
  {
    hide DigitOf, IsDigit;
    ValueAppend([], c, base);
    assert [] + [c] == [c] && Value([], base) * base == 0;
  }

  lemma Recompose(n: nat, base: nat)
    requires 0 < base
    ensures n / base * base + n % base == n && n % base < base
  {
  }

  /** What is shown reads back. */
  lemma {:induction false} ShowReads(n: nat, base: nat)
    requires 2 <= base <= 16
    ensures AllDigits(Show(n, base), base) && Value(Show(n, base), base) == n
    ensures n > 0 ==> Show(n, base)[0] != '0'
    decreases n
  {
    hide DigitOf, Numeral, AllDigits, Value;
    if n < base {
      NumeralDigit(n);
      OneDigit(Numeral(n), base);
    } else {
      ShowReads(n / base, base);
      Recompose(n, base);
      NumeralDigit(n % base);
      ValueAppend(Show(n / base, base), Numeral(n % base), base);
    }
  }

  // ----- The C library's strtoul, for 32-bit unsigned long ---------------------------

  /** How many digits `s` starts with. */
  function DigitRun(s: string, base: nat): (n: nat)
    ensures n <= |s| && AllDigits(s[..n], base)
    ensures n < |s| ==> !IsDigit(s[n], base)
  {
    if s == [] || !IsDigit(s[0], base) then 0
    else
      var n := DigitRun(s[1..], base) + 1;
      assert forall i | 1 <= i < n :: s[i] == s[1..][..n - 1][i - 1];
      n
  }

  predicate IsSpace(c: char) {
    c in " \t\n\U{B}\U{C}\r"
  }

  predicate AllSpaces(s: string) {
    forall i | 0 <= i < |s| :: IsSpace(s[i])
  }

  /** How many blanks `s` starts with. */
  function Spaces(s: string): (n: nat)
    ensures n <= |s| && AllSpaces(s[..n])
    ensures n < |s| ==> !IsSpace(s[n])
  {
    if s == [] || !IsSpace(s[0]) then 0
    else
      var n := Spaces(s[1..]) + 1;
      assert forall i | 1 <= i < n :: s[i] == s[1..][..n - 1][i - 1];
      n
  }

  /** Value and number of characters taken (0 when there is no number), or out of range. */
  datatype Scan = Scan(value: uint32, used: nat, outOfRange: bool)

  function AfterSign(s: string, a: nat): (b: nat)
    requires a <= |s|
    ensures a <= b <= |s|
  {
    if a < |s| && (s[a] == '-' || s[a] == '+') then a + 1 else a
  }

  function AfterPrefix(s: string, b: nat, base: nat): (c: nat)
    requires b <= |s|
    ensures b <= c <= |s|
  {
    if base == 16 && b + 2 < |s| && HexPrefix(s[b..]) && IsDigit(s[b + 2], 16) then b + 2 else b
  }

  function StrToUL(s: string, base: nat): Scan {
    var a := Spaces(s);
    var negative := a < |s| && s[a] == '-';
    var c := AfterPrefix(s, AfterSign(s, a), base);
    var n := DigitRun(s[c..], base);
    if n == 0 then Scan(0, 0, false)
    else
      var v := Value(s[c..][..n], base);
      if v > 0xFFFF_FFFF then Scan(0xFFFF_FFFF, c + n, true)
      else Scan(Signed(negative, v), c + n, false)
  }

  /** A number or its negative, in 32 bits. */
  function Signed(negative: bool, v: nat): uint32
    requires v <= 0xFFFF_FFFF
  {
    if negative then (0x1_0000_0000 - v) % 0x1_0000_0000 else v
  }

  predicate HexPrefix(s: string) {
    |s| >= 2 && s[0] == '0' && (s[1] == 'x' || s[1] == 'X')
  }

  // ----- The loader's parsers ------------------------------------------------------------

  function ParseUnsigned32(s: string): Option<uint32> {
    if s == [] then None
    else if HexPrefix(s) then Scanned(s[2..], 16)
    else if !('0' <= s[0] <= '9') then None
    else if s[0] == '0' && |s| > 1 then None
    else Scanned(s, 10)
  }

  function Scanned(digits: string, base: nat): Option<uint32> {
    var r := StrToUL(digits, base);
    if digits == [] || r.used == 0 || r.used != |digits| || r.outOfRange then None else Some(r.value)
  }

  /** Negative numbers as their two's complement bits. */
  function ParseSigned32AsBits(s: string): Option<uint32> {
    if s == [] || s[0] != '-' then None
    else
      match ParseUnsigned32(s[1..])
      case None => None
      case Some(m) => if m > 0x8000_0000 then None else Some((0x1_0000_0000 - m) % 0x1_0000_0000)
  }

  lemma {:induction false} FullRun(s: string, base: nat)
    ensures DigitRun(s, base) == |s| <==> AllDigits(s, base)
  {
    if s != [] {
      FullRun(s[1..], base);
      if AllDigits(s[1..], base) && IsDigit(s[0], base) {
        forall i | 0 <= i < |s|
          ensures IsDigit(s[i], base)
        {
          assert i > 0 ==> s[i] == s[1..][i - 1];
        }
      }
    }
  }

  lemma DigitLeads(c: char, base: nat)
    requires IsDigit(c, base)
    ensures !IsSpace(c) && c != '-' && c != '+' && c != 'x' && c != 'X'
  {
  }

  /** What strtoul does with a string that starts with a digit and has no prefix. */
  lemma ScanFromDigit(s: string, base: nat)
    requires s != [] && IsDigit(s[0], base) && (base == 10 || !HexPrefix(s))
    ensures var n := DigitRun(s, base);
            && n > 0
            && StrToUL(s, base) ==
               var v := Value(s[..n], base);
               if v > 0xFFFF_FFFF then Scan(0xFFFF_FFFF, n, true) else Scan(v, n, false)
  {
    DigitLeads(s[0], base);
    hide IsDigit, DigitOf, Value;
    assert s[0..] == s;
  }

  /** Scanning a string of digits gives its value, if that fits in 32 bits. */
  lemma ScanDigits(s: string, base: nat)
    requires s != [] && AllDigits(s, base) && (base == 10 || base == 16)
    ensures Scanned(s, base) == if Value(s, base) <= 0xFFFF_FFFF then Some(Value(s, base)) else None
  {
    hide IsDigit, DigitOf, Value, StrToUL, DigitRun;
    assert IsDigit(s[0], base);
    if |s| >= 2 {
      DigitLeads(s[1], base);
    }
    ScanFromDigit(s, base);
    FullRun(s, base);
    assert s[..|s|] == s;
  }

  lemma ScannedIsDigits(s: string)
    requires s != [] && IsDigit(s[0], 10) && Scanned(s, 10).Some?
    ensures AllDigits(s, 10) && Value(s, 10) == Scanned(s, 10).value
  {
    hide IsDigit, DigitOf, Value, StrToUL, DigitRun;
    ScanFromDigit(s, 10);
    FullRun(s, 10);
    assert s[..|s|] == s;
  }

  lemma ShowStep(v: nat, d: nat)
    requires d < 10 && v > 0
    ensures Show(v * 10 + d, 10) == Show(v, 10) + [Numeral(d)]
  {
  }

  lemma DigitIsNumeral(c: char)
    requires IsDigit(c, 10)
    ensures c == Numeral(DigitOf(c).value) && '0' <= c <= '9' && (DigitOf(c).value == 0 <==> c == '0')
  {
  }

  lemma {:induction false} PositiveValue(s: string)
    requires s != [] && AllDigits(s, 10) && s[0] != '0'
    ensures Value(s, 10) > 0
  {
    hide IsDigit, DigitOf;
    var init, last := s[..|s| - 1], s[|s| - 1];
    assert s == init + [last] && IsDigit(s[0], 10) && IsDigit(last, 10);
    ValueAppend(init, last, 10);
    DigitBound(last);
    if init == [] {
      OneDigit(last, 10);
      DigitIsNumeral(last);
    } else {
      PositiveValue(init);
    }
  }

  lemma {:induction false} CanonicalIsShow(s: string)
    requires s != [] && AllDigits(s, 10) && (|s| > 1 ==> s[0] != '0')
    ensures s == Show(Value(s, 10), 10)
  {
    hide IsDigit, DigitOf, Numeral, Value;
    var init, last := s[..|s| - 1], s[|s| - 1];
    assert s == init + [last] && IsDigit(last, 10);
    DigitIsNumeral(last);
    DigitBound(last);
    if init == [] {
      OneDigit(last, 10);
    } else {
      ValueAppend(init, last, 10);
      CanonicalIsShow(init);
      PositiveValue(init);
      ShowStep(Value(init, 10), DigitOf(last).value);
    }
  }

  lemma DigitBound(c: char)
    requires IsDigit(c, 10)
    ensures DigitOf(c).Some? && DigitOf(c).value < 10
  {
  }

  lemma ShowLeads(v: nat)
    ensures var s := Show(v, 10); s != [] && IsDigit(s[0], 10) && '0' <= s[0] <= '9' && (|s| > 1 ==> s[0] != '0')
  {
    ShowReads(v, 10);
    var s := Show(v, 10);
    assert IsDigit(s[0], 10);
    DigitIsNumeral(s[0]);
  }

  /** The decimal form is exact: what is accepted without a hex prefix is the
      canonical numeral of a 32-bit number, and nothing else. */
  lemma DecimalIsExact(s: string, v: uint32)
    requires !HexPrefix(s)
    ensures ParseUnsigned32(s) == Some(v) <==> s == Show(v, 10)
  {
    ShowReads(v, 10);
    ShowLeads(v);
    ScanDigits(Show(v, 10), 10);
    if ParseUnsigned32(s) == Some(v) {
      assert DigitOf(s[0]) == Some((s[0] as int) - ('0' as int));
      hide DigitOf, Value, Scanned, Show;
      ScannedIsDigits(s);
      CanonicalIsShow(s);
    }
  }

  // ----- The hex form ------------------------------------------------------------

  /** What the library makes of the text behind the "0x": blanks, a sign and a
      second prefix may all stand before the digits. */
  datatype HexForm = HexForm(spaces: string, sign: string, prefix: string, digits: string)

  predicate Spelled(f: HexForm, text: string) {
    && AllSpaces(f.spaces) && (f.sign == "" || f.sign == "+" || f.sign == "-")
    && (f.prefix == "" || f.prefix == "0x" || f.prefix == "0X")
    && f.digits != "" && AllDigits(f.digits, 16)
    && text == f.spaces + (f.sign + (f.prefix + f.digits))
  }

  /** The number a form stands for, if its digits fit in 32 bits. */
  function Amount(f: HexForm): Option<uint32> {
    if !AllDigits(f.digits, 16) || Value(f.digits, 16) > 0xFFFF_FFFF then None
    else Some(Signed(f.sign == "-", Value(f.digits, 16)))
  }

  lemma {:induction false} SpacesRun(s: string, tail: string)
    requires AllSpaces(s) && tail != "" && !IsSpace(tail[0])
    ensures Spaces(s + tail) == |s|
  {
    hide IsSpace;
    if s == [] {
      assert s + tail == tail;
    } else {
      assert (s + tail)[1..] == s[1..] + tail;
      SpacesRun(s[1..], tail);
    }
  }

  /** Digits alone never look like a second prefix. */
  lemma DigitsLead(digits: string)
    requires digits != "" && AllDigits(digits, 16)
    ensures IsDigit(digits[0], 16) && !IsSpace(digits[0]) && digits[0] != '-' && digits[0] != '+'
    ensures !HexPrefix(digits)
  {
    assert IsDigit(digits[0], 16);
    DigitLeads(digits[0], 16);
    if |digits| > 1 {
      assert IsDigit(digits[1], 16);
      DigitLeads(digits[1], 16);
    }
  }

  lemma SignAt(f: HexForm, s: string, text: string, a: nat)
    requires Spelled(f, s) && text == f.sign + (f.prefix + f.digits)
    requires a + |text| == |s| && s[a..] == text
    ensures text != "" && !IsSpace(text[0]) && s[a] == text[0]
    ensures AfterSign(s, a) == a + |f.sign| && s[a + |f.sign|..] == f.prefix + f.digits
    ensures s[a] == '-' <==> f.sign == "-"
  {
    DigitsLead(f.digits);
    hide IsDigit, AllDigits, AllSpaces;
    assert s[a] == s[a..][0];
    assert s[a + |f.sign|..] == s[a..][|f.sign|..];
  }

  lemma PrefixAt(f: HexForm, s: string, b: nat)
    requires Spelled(f, s) && b <= |s| && s[b..] == f.prefix + f.digits
    ensures AfterPrefix(s, b, 16) == b + |f.prefix| && s[b + |f.prefix|..] == f.digits
  {
    DigitsLead(f.digits);
    hide IsDigit, AllDigits, AllSpaces, IsSpace;
    var rest := s[b..];
    assert |rest| == |s| - b && s[b + |f.prefix|..] == rest[|f.prefix|..];
    if f.prefix == "" {
      assert rest == f.digits;
    } else {
      assert s[b + 2] == rest[2] == f.digits[0];
      assert HexPrefix(rest);
    }
  }

  /** Every such form is scanned in full, for its amount. */
  lemma FormScans(f: HexForm, s: string)
    requires Spelled(f, s)
    ensures Scanned(s, 16) == Amount(f)
  {
    hide IsDigit, AllDigits, AllSpaces, AfterSign, AfterPrefix, Value, DigitRun, Spaces;
    var text := f.sign + (f.prefix + f.digits);
    var a := |f.spaces|;
    assert s[a..] == text;
    SignAt(f, s, text, a);
    SpacesRun(f.spaces, text);
    var b := a + |f.sign|;
    PrefixAt(f, s, b);
    var c := b + |f.prefix|;
    FullRun(f.digits, 16);
    assert f.digits[..|f.digits|] == f.digits;
  }

  /** And whatever is scanned in full is such a form. */
  lemma ScannedIsForm(s: string) returns (f: HexForm)
    requires Scanned(s, 16).Some?
    ensures Spelled(f, s) && Scanned(s, 16) == Amount(f)
  {
    hide IsDigit, IsSpace, Value, DigitRun, Spaces;
    var a := Spaces(s);
    var b := AfterSign(s, a);
    var c := AfterPrefix(s, b, 16);
    var n := DigitRun(s[c..], 16);
    f := HexForm(s[..a], s[a..b], s[b..c], s[c..]);
    assert n > 0 && c + n == |s|;
    assert s[c..][..n] == s[c..];
    SignText(s, a);
    PrefixText(s, b);
    assert s == s[..a] + (s[a..b] + (s[b..c] + s[c..]));
    FormScans(f, s);
  }

  lemma SignText(s: string, a: nat)
    requires a <= |s|
    ensures var t := s[a..AfterSign(s, a)]; t == "" || t == "+" || t == "-"
  {
  }

  lemma PrefixText(s: string, b: nat)
    requires b <= |s|
    ensures var t := s[b..AfterPrefix(s, b, 16)]; t == "" || t == "0x" || t == "0X"
  {
    hide IsDigit;
    var c := AfterPrefix(s, b, 16);
    if c == b + 2 {
      assert s[b..][0] == s[b] && s[b..][1] == s[b + 1];
      assert s[b..c] == [s[b], s[b + 1]];
    }
  }

  /** The hex form is exactly what the library takes: leading blanks, a sign and
      a second prefix included. */
  lemma HexIsExact(s: string, v: uint32)
    requires HexPrefix(s)
    ensures ParseUnsigned32(s) == Some(v) <==> exists f :: Spelled(f, s[2..]) && Amount(f) == Some(v)
  {
    hide Spelled, Amount, Scanned;
    if ParseUnsigned32(s) == Some(v) {
      var f := ScannedIsForm(s[2..]);
    }
    if f: HexForm :| Spelled(f, s[2..]) && Amount(f) == Some(v) {
      FormScans(f, s[2..]);
    }
  }

  /** The hex form as documented: digits and nothing else, of a 32-bit number. */
  function Documented(s: string): Option<uint32>
    requires HexPrefix(s)
  {
    if |s| > 2 && AllDigits(s[2..], 16) && Value(s[2..], 16) <= 0xFFFF_FFFF then Some(Value(s[2..], 16)) else None
  }

  /** Digits follow the "0x" at once, and they are not a second "0x". */
  predicate PlainHex(s: string)
    requires HexPrefix(s)
  {
    |s| > 2 && IsDigit(s[2], 16) && !HexPrefix(s[2..])
  }

  lemma PlainForm(s: string)
    requires HexPrefix(s) && PlainHex(s)
    ensures ParseUnsigned32(s) == Documented(s)
  {
    hide IsDigit, Value, StrToUL, DigitRun;
    var t := s[2..];
    ScanFromDigit(t, 16);
    FullRun(t, 16);
    assert t[..|t|] == t;
  }

  lemma NotPlain(s: string)
    requires HexPrefix(s) && !PlainHex(s)
    ensures Documented(s) == None
  {
    if |s| > 2 && AllDigits(s[2..], 16) {
      assert IsDigit(s[2..][0], 16);
      assert HexPrefix(s[2..]);
      assert IsDigit(s[2..][1], 16);
      DigitLeads(s[2..][1], 16);
    }
  }

  /** The documented language is met exactly by the strings that are plain, and
      by those that the library's lenient forms do not cover either. */
  lemma HexIsDocumentedIff(s: string)
    requires HexPrefix(s)
    ensures ParseUnsigned32(s) == Documented(s)
            <==> PlainHex(s) || !exists f :: Spelled(f, s[2..]) && Amount(f).Some?
  {
    hide Spelled, Amount, Scanned, PlainHex;
    if PlainHex(s) {
      PlainForm(s);
    } else {
      NotPlain(s);
      if ParseUnsigned32(s).Some? {
        HexIsExact(s, ParseUnsigned32(s).value);
      }
      if f: HexForm :| Spelled(f, s[2..]) && Amount(f).Some? {
        HexIsExact(s, Amount(f).value);
      }
    }
  }

  lemma LeadIsNotDigits(f: HexForm, text: string)
    requires Spelled(f, text) && text != f.digits
    ensures !AllDigits(text, 16)
  {
    if f.spaces != "" {
      assert text[0] == f.spaces[0];
    } else if f.sign != "" {
      assert text[0] == f.sign[0];
    } else if f.prefix != "" {
      assert text[1] == f.prefix[1];
    }
  }

  /** Every form with anything before its digits is accepted against the documentation. */
  lemma LenientForm(f: HexForm, text: string)
    requires Spelled(f, text) && text != f.digits
    ensures ParseUnsigned32("0x" + text) == Amount(f) && Documented("0x" + text) == None
  {
    var s := "0x" + text;
    assert s[2..] == text && HexPrefix(s);
    LeadIsNotDigits(f, text);
    hide Spelled, Amount, Scanned, AllDigits, Value;
    FormScans(f, text);
  }

  lemma OneDigitForm(f: HexForm, text: string)
    requires AllSpaces(f.spaces) && (f.sign == "" || f.sign == "+" || f.sign == "-") && (f.prefix == "" || f.prefix == "0x")
    requires f.digits == "1" && text == f.spaces + (f.sign + (f.prefix + "1")) && text != "1"
    ensures ParseUnsigned32("0x" + text) == Some(if f.sign == "-" then 0xFFFF_FFFF else 1)
    ensures Documented("0x" + text) == None
  {
    hide AllSpaces, AllDigits, Documented, ParseUnsigned32, Value, IsDigit, DigitOf, HexPrefix;
    OneIsOne();
    LenientForm(f, text);
  }

  lemma OneIsOne()
    ensures AllDigits("1", 16) && Value("1", 16) == 1
  {
    OneDigit('1', 16);
  }

  /** Strings the documentation excludes and the loader accepts: one with an inner sign, */
  lemma InnerSignAccepted()
    ensures HexPrefix("0x-1") && ParseUnsigned32("0x-1") == Some(0xFFFF_FFFF) && Documented("0x-1") == None
  {
    assert "0x" + "-1" == "0x-1";
    hide ParseUnsigned32, Documented, Spelled, Amount, IsDigit, DigitOf, Value, IsSpace;
    OneDigitForm(HexForm("", "-", "", "1"), "-1");
  }

  /** one with an inner blank, */
  lemma InnerBlankAccepted()
    ensures HexPrefix("0x 1") && ParseUnsigned32("0x 1") == Some(1) && Documented("0x 1") == None
  {
    assert "0x" + " 1" == "0x 1";
    assert IsSpace(' ');
    hide ParseUnsigned32, Documented, Spelled, Amount, IsDigit, DigitOf, Value, IsSpace;
    OneDigitForm(HexForm(" ", "", "", "1"), " 1");
  }

  /** one with a second prefix, */
  lemma SecondPrefixAccepted()
    ensures HexPrefix("0x0x1") && ParseUnsigned32("0x0x1") == Some(1) && Documented("0x0x1") == None
  {
    assert "0x" + "0x1" == "0x0x1";
    hide ParseUnsigned32, Documented, Spelled, Amount, IsDigit, DigitOf, Value, IsSpace;
    OneDigitForm(HexForm("", "", "0x", "1"), "0x1");
  }

  /** and a negative one. */
  lemma InnerBlankNegated()
    ensures ParseSigned32AsBits("-0x 1") == Some(0xFFFF_FFFF)
  {
    assert "-0x 1"[1..] == "0x 1";
    hide ParseUnsigned32, Documented;
    InnerBlankAccepted();
  }

  /** The hex form reads back every 32-bit number. */
  lemma HexRoundTrip(v: uint32)
    ensures ParseUnsigned32("0x" + Show(v, 16)) == Some(v)
  {
    var digits := Show(v, 16);
    ShowReads(v, 16);
    ScanDigits(digits, 16);
    assert ("0x" + digits)[2..] == digits;
  }

  /** The negative form reads back exactly the numbers down to -2^31, as bits. */
  lemma NegativeRoundTrip(m: uint32)
    ensures ParseSigned32AsBits("-" + Show(m, 10))
            == if m <= 0x8000_0000 then Some((0x1_0000_0000 - m) % 0x1_0000_0000) else None
  {
    hide ParseUnsigned32, Show, HexPrefix;
    var s := Show(m, 10);
    NoHexPrefix(m);
    DecimalIsExact(s, m);
    assert ("-" + s)[1..] == s;
  }

  /** Negative numbers, whichever form their magnitude has: the canonical decimal
      numeral, or any hex form, of a number up to 2^31. */
  lemma NegativeIsExact(s: string, v: uint32)
    ensures ParseSigned32AsBits(s) == Some(v)
            <==> && s != "" && s[0] == '-'
                 && exists m: uint32 :: m <= 0x8000_0000 && v == Signed(true, m) && MagnitudeIs(s[1..], m)
  {
    hide Scanned, MagnitudeIs;
    if s != "" && s[0] == '-' {
      if ParseSigned32AsBits(s) == Some(v) {
        MagnitudeIsExact(s[1..], ParseUnsigned32(s[1..]).value);
      }
      if m: uint32 :| m <= 0x8000_0000 && v == Signed(true, m) && MagnitudeIs(s[1..], m) {
        MagnitudeIsExact(s[1..], m);
      }
    }
  }

  ghost predicate MagnitudeIs(t: string, m: uint32) {
    if HexPrefix(t) then exists f :: Spelled(f, t[2..]) && Amount(f) == Some(m) else t == Show(m, 10)
  }

  lemma MagnitudeIsExact(t: string, m: uint32)
    ensures ParseUnsigned32(t) == Some(m) <==> MagnitudeIs(t, m)
  {
    hide ParseUnsigned32, Spelled, Amount, Show;
    if HexPrefix(t) {
      HexIsExact(t, m);
    } else {
      DecimalIsExact(t, m);
    }
  }

  lemma NoHexPrefix(m: nat)
    ensures !HexPrefix(Show(m, 10))
  {
    hide Show;
    ShowReads(m, 10);
    var s := Show(m, 10);
    if |s| > 1 {
      assert IsDigit(s[1], 10);
    }
  }
}
