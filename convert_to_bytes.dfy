/** `convertToBytes({size, unit})`: a size in a binary unit, in bytes. */
module SizeUnits {

  datatype SizeUnit = Bytes | KB | MB | GB | TB

  /** How many steps of 1024 separate `unit` from bytes. */
  function Rank(unit: SizeUnit): nat {
    match unit
    case Bytes => 0
    case KB => 1
    case MB => 2
    case GB => 3
    case TB => 4
  }

  function Pow1024(n: nat): (p: nat)
    ensures p >= 1
  {
    if n == 0 then 1 else 1024 * Pow1024(n - 1)
  }

  /** The switch of the source, one multiplication chain per unit; `Bytes` (and the
      `default` branch) return the size unchanged. */
  function ConvertToBytes(size: int, unit: SizeUnit): (r: int)
    ensures unit == Bytes ==> r == size
    ensures size >= 0 ==> r >= 0
    ensures size > 0 && unit != Bytes ==> r > size
  {
    match unit
    case KB => size * 1024
    case MB => size * 1024 * 1024
    case GB => size * 1024 * 1024 * 1024
    case TB => size * 1024 * 1024 * 1024 * 1024
    case Bytes => size
  }

  /** Every unit is the size times 1024 raised to the unit's rank. */
  lemma ConvertIsPowerOf1024(size: int, unit: SizeUnit)
    ensures ConvertToBytes(size, unit) == size * Pow1024(Rank(unit))
  {
    assert Pow1024(1) == 1024;
    assert Pow1024(2) == 1024 * 1024;
    assert Pow1024(3) == 1024 * 1024 * 1024;
    assert Pow1024(4) == 1024 * 1024 * 1024 * 1024;
  }

  /** For one size, each unit is exactly 1024 times the next smaller one. */
  lemma NextUnitIs1024Times(size: int, smaller: SizeUnit, larger: SizeUnit)
    requires Rank(larger) == Rank(smaller) + 1
    ensures ConvertToBytes(size, larger) == 1024 * ConvertToBytes(size, smaller)
  {
    ConvertIsPowerOf1024(size, smaller);
    ConvertIsPowerOf1024(size, larger);
    assert Pow1024(Rank(larger)) == 1024 * Pow1024(Rank(smaller));
  }

  /** For every unit the result grows with the size. */
  lemma ConvertIsMonotone(a: int, b: int, unit: SizeUnit)
    requires a <= b
    ensures ConvertToBytes(a, unit) <= ConvertToBytes(b, unit)
  {
    ConvertIsPowerOf1024(a, unit);
    ConvertIsPowerOf1024(b, unit);
    var p := Pow1024(Rank(unit));
    assert (b - a) * p >= 0;
    assert b * p - a * p == (b - a) * p;
  }
}
