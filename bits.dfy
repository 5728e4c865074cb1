/** The loop index of the load loop is an integer, the address field it is
    stored in is 8 bits wide. This module gives the 8-bit pattern of a small
    integer by counting up from zero, so that no proof about it depends on
    the solver's integer/bit-vector conversions. */
module Bits {

  /** The 8-bit pattern of `i`. */
  function ByteOf(i: nat): bv8
    requires i < 256
  {
    if i == 0 then 0 else ByteOf(i - 1) + 1
  }

  /** Adding one to a byte below its maximum adds one to its value. */
  lemma Succ(b: bv8)
    requires b as int < 255
    ensures (b + 1) as int == b as int + 1
  {
  }

  /** The pattern of `i` has the value `i`. */
  lemma {:induction false} ByteOfValue(i: nat)
    requires i < 256
    ensures ByteOf(i) as int == i
  {
    if i > 0 {
      ByteOfValue(i - 1);
      Succ(ByteOf(i - 1));
    }
  }
}
