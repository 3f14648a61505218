/** Machine integers. */
module Words {

  const TWO_TO_31: nat := 0x8000_0000
  const TWO_TO_32: nat := 0x1_0000_0000
  const TWO_TO_64: nat := 0x1_0000_0000_0000_0000

  /** A `size_t` stored in an `int`. */
  function ToInt32(x: nat): int {
    var low := x % TWO_TO_32;
    if low < TWO_TO_31 then low else low - TWO_TO_32
  }

  /** It is the number of 32 bits in two's complement that agrees with the value in its low bits, and
      keeps the value if and only if that is below two to the 31st. */
  lemma StoredExactly(x: nat)
    ensures -0x8000_0000 <= ToInt32(x) < 0x8000_0000 && (x - ToInt32(x)) % 0x1_0000_0000 == 0
    ensures ToInt32(x) == x <==> x < 0x8000_0000
  {
    var low := x % TWO_TO_32;
    assert x == x / TWO_TO_32 * TWO_TO_32 + low;
    if low < TWO_TO_31 {
      MultipleOf32(x / TWO_TO_32);
    } else {
      assert x - ToInt32(x) == (x / TWO_TO_32 + 1) * TWO_TO_32;
      MultipleOf32(x / TWO_TO_32 + 1);
    }
  }

  lemma MultipleOf32(k: nat)
    ensures k * TWO_TO_32 % 0x1_0000_0000 == 0
  {}
}
