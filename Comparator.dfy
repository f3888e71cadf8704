/**
 * `HuffmanComparator`: the difference of the two frequencies, computed in
 * 32-bit two's complement arithmetic.
 */
module Comparator {
  import opened Nodes

  const TWO_31: int := 0x8000_0000
  const TWO_32: int := 0x1_0000_0000

  /** An `int` result: `x` wrapped into [-2^31, 2^31). */
  function Int32(x: int): (r: int)
    ensures -TWO_31 <= r < TWO_31
    ensures (x - r) % TWO_32 == 0
    ensures -TWO_31 <= x < TWO_31 ==> r == x
  {
    (x + TWO_31) % TWO_32 - TWO_31
  }

  /** `compare(x, y)`: `x.frequency - y.frequency` as a Java `int`, which wraps on overflow. */
  function Compare(x: HuffmanNode, y: HuffmanNode): (r: int)
    ensures -TWO_31 <= r < TWO_31
    ensures (x.frequency - y.frequency - r) % TWO_32 == 0
  {
    Int32(x.frequency - y.frequency)
  }

  /**
   * For frequencies that fit in an `int` the comparator orders by frequency:
   * negative when less, zero when equal, and antisymmetric.
   */
  lemma CompareOrdersByFrequency(x: HuffmanNode, y: HuffmanNode)
    requires x.frequency < TWO_31 && y.frequency < TWO_31
    ensures Compare(x, y) < 0 <==> x.frequency < y.frequency
    ensures Compare(x, y) == 0 <==> x.frequency == y.frequency
    ensures Compare(x, y) > 0 <==> x.frequency > y.frequency
    ensures Compare(x, y) == -Compare(y, x)
  {
    assert Compare(x, y) == x.frequency - y.frequency;
    assert Compare(y, x) == y.frequency - x.frequency;
  }
}
