/**
 * The two double-width forms of isize::carrying_mul_add on a 64-bit target: widening
 * through u128 with wrapping operations, and widening through i128.
 */
module WideningMul {
  import opened Wrappers

  const TWO63 := 0x8000_0000_0000_0000
  const TWO64 := 0x1_0000_0000_0000_0000
  const TWO128 := 0x1_0000_0000_0000_0000_0000_0000_0000_0000

  newtype isize = x: int | -0x8000_0000_0000_0000 <= x < 0x8000_0000_0000_0000
  newtype usize = x: int | 0 <= x < 0x1_0000_0000_0000_0000
  newtype u128 = x: int | 0 <= x < 0x1_0000_0000_0000_0000_0000_0000_0000_0000
  newtype i128 = x: int | -0x8000_0000_0000_0000_0000_0000_0000_0000 <= x < 0x8000_0000_0000_0000_0000_0000_0000_0000

  // ------------------------------------------------------ casts and operators

  /** A cast to an unsigned type keeps the value modulo the width. */
  function AsU128(a: isize): u128 {
    (a as int % TWO128) as u128
  }

  function LowHalf(wide: int): usize {
    (wide % TWO64) as usize
  }

  /** A cast to isize reads the low 64 bits as two's complement. */
  function AsIsize(n: int): isize {
    var low := n % TWO64;
    (if low < TWO63 then low else low - TWO64) as isize
  }

  /** Shifting right by 64 rounds down, for both signs. */
  function HighHalf(wide: int): isize {
    AsIsize(wide / TWO64)
  }

  function WrappingMul(a: u128, b: u128): u128 {
    ((a as int * b as int) % TWO128) as u128
  }

  function WrappingAdd(a: u128, b: u128): u128 {
    ((a as int + b as int) % TWO128) as u128
  }

  // ------------------------------------------------------------ the two forms

  function UnsignedWide(a: isize, b: isize, c: isize, d: isize): u128 {
    WrappingAdd(WrappingAdd(WrappingMul(AsU128(a), AsU128(b)), AsU128(c)), AsU128(d))
  }

  function UnsignedWidening(a: isize, b: isize, c: isize, d: isize): (usize, isize) {
    var wide := UnsignedWide(a, b, c, d);
    (LowHalf(wide as int), HighHalf(wide as int))
  }

  /** The checked i128 operations of the signed form: verifying them shows that none overflows. */
  function SignedWide(a: isize, b: isize, c: isize, d: isize): i128 {
    ProductBound(a as int, b as int);
    a as i128 * b as i128 + c as i128 + d as i128
  }

  function SignedWidening(a: isize, b: isize, c: isize, d: isize): (usize, isize) {
    var wide := SignedWide(a, b, c, d);
    (LowHalf(wide as int), HighHalf(wide as int))
  }

  function Exact(a: isize, b: isize, c: isize, d: isize): int {
    a as int * b as int + c as int + d as int
  }

  // ------------------------------------------------------------------ results

  lemma MulMonotone(x: int, y: int, bound: int)
    requires 0 <= x <= bound && 0 <= y <= bound
    ensures 0 <= x * y <= bound * bound
  {
  }

  lemma ProductBound(a: int, b: int)
    requires -TWO63 <= a < TWO63 && -TWO63 <= b < TWO63
    ensures -(TWO63 * TWO63) <= a * b <= TWO63 * TWO63
  {
    var x, y := if a < 0 then -a else a, if b < 0 then -b else b;
    MulMonotone(x, y, TWO63);
    Signs(a, b, x, y);
  }

  lemma Signs(a: int, b: int, x: int, y: int)
    requires (x == a || x == -a) && (y == b || y == -b)
    ensures a * b == x * y || a * b == -(x * y)
  {
  }

  /** The halves of a two's complement number put it together again. */
  lemma Halves(n: int)
    requires -TWO63 * TWO64 <= n < TWO63 * TWO64
    ensures LowHalf(n) as int + TWO64 * HighHalf(n) as int == n
  {
  }

  /** The signed form computes a * b + c + d, on every input. */
  lemma SignedIsExact(a: isize, b: isize, c: isize, d: isize)
    ensures var (lo, hi) := SignedWidening(a, b, c, d);
            lo as int + 0x1_0000_0000_0000_0000 * hi as int == a as int * b as int + c as int + d as int
  {
    ProductBound(a as int, b as int);
    Halves(Exact(a, b, c, d));
  }

  /** Reducing an integer modulo 2^128 adds a multiple of 2^128. */
  lemma ModAdds(n: int) returns (k: int)
    ensures n % TWO128 == n + k * TWO128
  {
    k := -(n / TWO128);
  }

  lemma MulExpands(a: int, b: int, i: int, j: int, w: int)
    ensures (a + i * w) * (b + j * w) == a * b + (a * j + b * i + i * j * w) * w
  {
    Distribute(a, i * w, b, j * w);
    assert a * (j * w) == (a * j) * w;
    assert (i * w) * b == (b * i) * w;
    assert (i * w) * (j * w) == (i * j * w) * w;
  }

  lemma Distribute(a: int, x: int, b: int, y: int)
    ensures (a + x) * (b + y) == a * b + a * y + x * b + x * y
  {
  }

  /** The wrapping form is the exact value up to a multiple of 2^128. */
  lemma UnsignedIsCongruent(a: isize, b: isize, c: isize, d: isize) returns (k: int)
    ensures UnsignedWide(a, b, c, d) as int == Exact(a, b, c, d) + k * TWO128
  {
    var i := ModAdds(a as int);
    var j := ModAdds(b as int);
    var l := ModAdds(c as int);
    var m := ModAdds(d as int);
    MulExpands(a as int, b as int, i, j, TWO128);
    var p := ModAdds(AsU128(a) as int * AsU128(b) as int);
    var product := WrappingMul(AsU128(a), AsU128(b));
    var q := ModAdds(product as int + AsU128(c) as int);
    var sum := WrappingAdd(product, AsU128(c));
    var r := ModAdds(sum as int + AsU128(d) as int);
    k := a as int * j + b as int * i + i * j * TWO128 + p + l + q + m + r;
  }

  /** Both halves depend on the value modulo 2^128 only. */
  lemma SameHalves(n: int, k: int)
    ensures LowHalf(n + k * TWO128) == LowHalf(n) && HighHalf(n + k * TWO128) == HighHalf(n)
  {
    Shift(n, k * TWO64);
    Shift(n / TWO64, k);
    assert k * TWO128 == (k * TWO64) * TWO64;
  }

  lemma Shift(n: int, k: int)
    ensures (n + k * TWO64) % TWO64 == n % TWO64 && (n + k * TWO64) / TWO64 == n / TWO64 + k
  {
  }

  /** On every input the wrapping unsigned form returns the same pair as the signed form. */
  lemma FormsAgree(a: isize, b: isize, c: isize, d: isize)
    ensures UnsignedWidening(a, b, c, d) == SignedWidening(a, b, c, d)
  {
    var k := UnsignedIsCongruent(a, b, c, d);
    SameHalves(Exact(a, b, c, d), k);
  }

  // ---------------------------------------------------- the checked expression

  function CheckedMul(a: u128, b: u128): Option<u128> {
    var n := a as int * b as int;
    if n < TWO128 then Some(n as u128) else None
  }

  function CheckedAdd(a: u128, b: u128): Option<u128> {
    var n := a as int + b as int;
    if n < TWO128 then Some(n as u128) else None
  }

  /** The unsigned form as the fallback writes it, each operation checked; None is its overflow panic. */
  function CheckedWide(a: isize, b: isize, c: isize, d: isize): Option<u128> {
    match CheckedMul(AsU128(a), AsU128(b))
    case None => None
    case Some(product) =>
      match CheckedAdd(product, AsU128(c))
      case None => None
      case Some(sum) => CheckedAdd(sum, AsU128(d))
  }

  /** One of two operands is negative and the other neither 0 nor 1. */
  predicate ProductTooWide(a: isize, b: isize) {
    (a < 0 && b != 0 && b != 1) || (b < 0 && a != 0 && a != 1)
  }

  function Count(b: bool): nat {
    if b then 1 else 0
  }

  /** How often the cast to u128 has added 2^128: to a negative addend, or to a product of a negative with 1. */
  function Wraps(a: isize, b: isize, c: isize, d: isize): nat {
    Count((a < 0 && b == 1) || (b < 0 && a == 1)) + Count(c < 0) + Count(d < 0)
  }

  /**
   * The checked unsigned form panics exactly when its product is too wide, when two operands
   * have wrapped, or when one has and the exact result is not negative. The signed form
   * never does.
   */
  lemma CheckedOverflowsExactly(a: isize, b: isize, c: isize, d: isize)
    ensures CheckedWide(a, b, c, d) == None <==>
            || ProductTooWide(a, b)
            || Wraps(a, b, c, d) >= 2
            || (Wraps(a, b, c, d) == 1 && Exact(a, b, c, d) >= 0)
  {
    hide AsU128;
    Residue(a);
    Residue(b);
    Residue(c);
    Residue(d);
    ProductOverflowsExactly(a, b);
    ProductBound(a as int, b as int);
    if !ProductTooWide(a, b) { NarrowProduct(a, b); }
  }

  /** A product that does not overflow is the exact one, or that of a negative operand with 1. */
  lemma NarrowProduct(a: isize, b: isize)
    requires !ProductTooWide(a, b)
    ensures AsU128(a) as int * AsU128(b) as int ==
            a as int * b as int + TWO128 * Count((a < 0 && b == 1) || (b < 0 && a == 1))
  {
    hide AsU128;
    Residue(a);
    Residue(b);
    if a < 0 {
      assert b == 0 || b == 1;
    } else if b < 0 {
      assert a == 0 || a == 1;
    }
  }

  lemma CheckedStep(a: u128, b: u128)
    ensures CheckedMul(a, b).Some? ==> CheckedMul(a, b).value == WrappingMul(a, b)
    ensures CheckedAdd(a, b).Some? ==> CheckedAdd(a, b).value == WrappingAdd(a, b)
  {
    SmallMod(a as int * b as int);
    SmallMod(a as int + b as int);
  }

  lemma SmallMod(n: int)
    ensures 0 <= n < TWO128 ==> n % TWO128 == n
  {
  }

  lemma CheckedIsWrapping(a: isize, b: isize, c: isize, d: isize)
    ensures CheckedWide(a, b, c, d).Some? ==> CheckedWide(a, b, c, d).value == UnsignedWide(a, b, c, d)
  {
    hide AsU128, CheckedMul, CheckedAdd, WrappingMul, WrappingAdd;
    var product := WrappingMul(AsU128(a), AsU128(b));
    CheckedStep(AsU128(a), AsU128(b));
    CheckedStep(product, AsU128(c));
    CheckedStep(WrappingAdd(product, AsU128(c)), AsU128(d));
  }

  /** Without its panics the checked form is the wrapping one, and so has the signed result. */
  lemma CheckedIsExact(a: isize, b: isize, c: isize, d: isize)
    ensures CheckedWide(a, b, c, d).Some? ==>
              var wide := CheckedWide(a, b, c, d).value as int;
              (LowHalf(wide), HighHalf(wide)) == SignedWidening(a, b, c, d)
  {
    hide UnsignedWide, CheckedWide, SignedWidening, LowHalf, HighHalf;
    CheckedIsWrapping(a, b, c, d);
    FormsAgree(a, b, c, d);
  }

  /** At -1 * -1 the checked unsigned form panics, while the signed result is the pair 1, 0. */
  lemma MinusOneSquared()
    ensures CheckedWide(-1, -1, 0, 0) == None
    ensures SignedWidening(-1, -1, 0, 0) == (1, 0) == UnsignedWidening(-1, -1, 0, 0)
  {
    CheckedOverflowsExactly(-1, -1, 0, 0);
    FormsAgree(-1, -1, 0, 0);
    assert SignedWide(-1, -1, 0, 0) == 1;
  }

  /** The product of the cast operands needs more than 128 bits, although the signed product always fits. */
  lemma ProductOverflowsExactly(a: isize, b: isize)
    ensures AsU128(a) as int * AsU128(b) as int >= TWO128 <==> ProductTooWide(a, b)
  {
    hide AsU128;
    var x, y := AsU128(a) as int, AsU128(b) as int;
    Residue(a);
    Residue(b);
    if a < 0 {
      BigTimes(x, y);
    } else if b < 0 {
      BigTimes(y, x);
      assert x * y == y * x;
    } else {
      MulMonotone(x, y, TWO63);
    }
  }

  lemma Residue(a: isize)
    ensures AsU128(a) as int == if a < 0 then TWO128 + a as int else a as int
  {
  }

  lemma BigTimes(x: int, y: int)
    requires TWO128 - TWO63 <= x < TWO128 && y >= 0
    ensures x * y >= TWO128 <==> y >= 2
  {
    if y >= 2 {
      AtLeastDouble(x, y);
    } else {
      assert y == 0 || y == 1;
    }
  }

  lemma AtLeastDouble(x: int, y: int)
    requires x >= 0 && y >= 2
    ensures x * y >= 2 * x
  {
  }
}
