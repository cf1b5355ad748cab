/** Java `int` values and arithmetic: the parser keeps every field, cursor and
    count in an `int`, whose sums wrap around at 2^32. */
module JavaInts {

  const IntMin: int := -0x8000_0000
  const IntMax: int := 0x7FFF_FFFF

  predicate IsInt(x: int)
  {
    IntMin <= x <= IntMax
  }

  /** A Java `int`. */
  type Int32 = x: int | -0x8000_0000 <= x <= 0x7FFF_FFFF

  /** The `int` Java keeps of a result that may overflow: the one congruent to
      it modulo 2^32. */
  function Wrap(x: int): (r: Int32)
    ensures r % 0x1_0000_0000 == x % 0x1_0000_0000
    ensures IsInt(x) ==> r == x
  {
    var m := x % 0x1_0000_0000;
    if m <= IntMax then m else m - 0x1_0000_0000
  }

  /** Java's `int` addition: the sum of two `int`s, wrapped into range. */
  function Add(a: Int32, b: Int32): (r: Int32)
    ensures IsInt(a + b) ==> r == a + b
  {
    var s: int := a + b;
    if s > IntMax then s - 0x1_0000_0000 else if s < IntMin then s + 0x1_0000_0000 else s
  }

  /** Java's `int` addition is the exact sum wrapped modulo 2^32, whether or
      not it overflows. */
  lemma AddWraps(a: Int32, b: Int32)
    ensures Add(a, b) == Wrap(a + b)
    ensures Add(a, b) % 0x1_0000_0000 == (a + b) % 0x1_0000_0000
  {}

  /** Adding in two steps is adding the sum, when the sum of the steps is an `int`. */
  lemma AddTwice(a: Int32, b: Int32, c: Int32)
    requires IsInt(b + c)
    ensures Add(Add(a, b), c) == Add(a, b + c)
  {}

  /** The unsigned reading of an `int`'s 32 bits, as `Integer.toUnsignedLong`
      gives it. */
  function Unsigned(v: Int32): (u: int)
    ensures 0 <= u < 0x1_0000_0000
    ensures u % 0x1_0000_0000 == v % 0x1_0000_0000
  {
    if v < 0 then v + 0x1_0000_0000 else v
  }

  /** Four bytes as 32 bits, lowest first. */
  function WordOfBytes(b0: bv8, b1: bv8, b2: bv8, b3: bv8): bv32
  {
    b0 as bv32 | ((b1 as bv32) << 8) | ((b2 as bv32) << 16) | ((b3 as bv32) << 24)
  }

  /** The 32 bits of an `int`, as Java's bit operators see them: the four
      base-256 digits of its unsigned reading, lowest first. */
  function IntBits(v: Int32): bv32
  {
    var u0 := Unsigned(v);
    var u1 := u0 / 0x100;
    var u2 := u1 / 0x100;
    var u3 := u2 / 0x100;
    WordOfBytes((u0 % 0x100) as bv8, (u1 % 0x100) as bv8, (u2 % 0x100) as bv8, (u3 % 0x100) as bv8)
  }

  /** Dividing `b + 256 q` by 256, for a byte `b`, leaves `b` and gives `q`. */
  lemma DigitStep(x: int, b: bv8, q: int)
    requires x == b as int + 0x100 * q
    ensures x % 0x100 == b as int && x / 0x100 == q
  {}

  /** The base-256 digits of a number below 2^32. */
  lemma Digits(u: int, b0: bv8, b1: bv8, b2: bv8, b3: bv8)
    requires u == b0 as int + 0x100 * (b1 as int + 0x100 * (b2 as int + 0x100 * b3 as int))
    ensures u % 0x100 == b0 as int && (u / 0x100) % 0x100 == b1 as int
    ensures (u / 0x100 / 0x100) % 0x100 == b2 as int && (u / 0x100 / 0x100 / 0x100) % 0x100 == b3 as int
  {
    DigitStep(u, b0, b1 as int + 0x100 * (b2 as int + 0x100 * b3 as int));
    DigitStep(u / 0x100, b1, b2 as int + 0x100 * b3 as int);
    DigitStep(u / 0x100 / 0x100, b2, b3 as int);
    DigitStep(b3 as int, b3, 0);
  }

  /** The bits of an `int` whose unsigned reading has base-256 digits
      b0, b1, b2, b3 are those bytes. */
  lemma IntBitsOfBytes(v: Int32, b0: bv8, b1: bv8, b2: bv8, b3: bv8)
    requires Unsigned(v) == b0 as int + 0x100 * (b1 as int + 0x100 * (b2 as int + 0x100 * b3 as int))
    ensures IntBits(v) == WordOfBytes(b0, b1, b2, b3)
  {
    var u := Unsigned(v);
    Digits(u, b0, b1, b2, b3);
    ByteRoundTrip(b0);
    ByteRoundTrip(b1);
    ByteRoundTrip(b2);
    ByteRoundTrip(b3);
  }

  lemma ByteRoundTrip(b: bv8)
    ensures (b as int) as bv8 == b
  {}

  /** A number below 2^32 wrapped into an `int` reads back unsigned as itself. */
  lemma UnsignedWrap(x: int)
    requires 0 <= x < 0x1_0000_0000
    ensures Unsigned(Wrap(x)) == x
  {}

  /** Two `int`s are equal exactly when their unsigned readings are. */
  lemma UnsignedInjective(v: Int32, w: Int32)
    ensures Unsigned(v) == Unsigned(w) <==> v == w
  {}

  /** Adding a multiple of 2^32 does not change the residue. */
  lemma ModShift(x: int, q: int)
    ensures (x - q * 0x1_0000_0000) % 0x1_0000_0000 == x % 0x1_0000_0000
  {}

  /** Two numbers congruent modulo 2^32 stay congruent when both are scaled
      by `c` and moved by `b`. */
  lemma Congruent(x: int, y: int, c: int, b: int)
    requires x % 0x1_0000_0000 == y % 0x1_0000_0000
    ensures (c * x + b) % 0x1_0000_0000 == (c * y + b) % 0x1_0000_0000
  {
    var d := x / 0x1_0000_0000 - y / 0x1_0000_0000;
    assert x - y == 0x1_0000_0000 * d;
    assert c * x + b == (c * y + b) + c * (x - y);
    assert c * (x - y) == (c * d) * 0x1_0000_0000;
    ModShift(c * x + b, c * d);
  }

  /** `res << 8` is `res * 256` wrapped, and leaves room for a byte below
      the top of the range. */
  lemma ShiftRoom(res: Int32)
    ensures IntMin <= Wrap(res * 256) && Wrap(res * 256) + 255 <= IntMax
  {
    var q := (res * 256) / 0x1_0000_0000;
    var r := res - 0x100_0000 * q;
    assert res * 256 == 0x1_0000_0000 * q + 256 * r;
    assert 0 <= 256 * r < 0x1_0000_0000;
  }

  /** Wrapping keeps exactly the residue modulo 2^32. */
  lemma WrapSame(x: int, y: int)
    ensures Wrap(x) == Wrap(y) <==> x % 0x1_0000_0000 == y % 0x1_0000_0000
  {}
}
