/** The 32-bit two's-complement `int` of the source: its range and the
    wrap-around of unchecked arithmetic. */
module Int32 {

  const MinValue: int := -0x8000_0000
  const MaxValue: int := 0x7FFF_FFFF

  predicate InRange(x: int) {
    MinValue <= x <= MaxValue
  }

  /** The value an unchecked C# `int` operation yields when its exact result is `x`. */
  function Wrap(x: int): (r: int)
    ensures InRange(r)
    ensures (r - x) % 0x1_0000_0000 == 0
    ensures InRange(x) ==> r == x
  {
    (x - MinValue) % 0x1_0000_0000 + MinValue
  }

  /** Wrapping part-way through a sum changes nothing: unchecked `int`
      arithmetic is arithmetic modulo 2^32. */
  lemma WrapAdd(x: int, d: int)
    ensures Wrap(Wrap(x) + d) == Wrap(x + d)
  {
    var m := 0x1_0000_0000;
    var k := (Wrap(x) - x) / m;
    assert Wrap(x) + d - MinValue == (x + d - MinValue) + k * m;
  }
}
