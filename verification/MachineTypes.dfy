/** Fixed-width numbers and optional values. */
module MachineTypes {

  type byte = x: int | 0 <= x < 0x100
  type uint16 = x: int | 0 <= x < 0x1_0000
  type uint32 = x: int | 0 <= x < 0x1_0000_0000

  datatype Option<+T> = None | Some(value: T)

  /** A number kept in a 32-bit word. */
  function Wrap32(n: nat): uint32 {
    n % 0x1_0000_0000
  }

  function Pow2(n: nat): nat {
    if n == 0 then 1 else 2 * Pow2(n - 1)
  }

  // ----- Bytes as numbers and as bits ---------------------------------------

  lemma NextByte(b: bv8)
    requires b as int < 255
    ensures (b + 1) as int == b as int + 1
  {
  }

  lemma {:induction false} SomeByte(x: nat) returns (b: bv8)
    requires x < 256
    ensures b as int == x
  {
    if x == 0 {
      b := 0;
    } else {
      var c := SomeByte(x - 1);
      NextByte(c);
      b := c + 1;
    }
  }

  lemma SameByte(b: bv8, x: nat)
    requires x == b as int
    ensures x as bv8 == b
  {
  }

  /** A small number survives being kept in a byte. */
  lemma ByteNumber(x: nat)
    requires x < 256
    ensures (x as bv8) as int == x
  {
    var b := SomeByte(x);
    SameByte(b, x);
  }
}
