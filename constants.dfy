/**
 * The byte-unit constants of the extension library: the decimal units
 * `KB`..`PB` and the binary units `KiB`..`PiB`, each declared as a signed
 * 64-bit `long` in terms of the next smaller unit.
 */
module Constants {

  /** A signed 64-bit integer, as C#'s `long`. */
  newtype Int64 = x: int | -0x8000_0000_0000_0000 <= x < 0x8000_0000_0000_0000

  const KB: Int64 := 1000
  const MB: Int64 := KB * 1000
  const GB: Int64 := MB * 1000
  const TB: Int64 := GB * 1000
  const PB: Int64 := TB * 1000

  const KiB: Int64 := 1024
  const MiB: Int64 := KiB * 1024
  const GiB: Int64 := MiB * 1024
  const TiB: Int64 := GiB * 1024
  const PiB: Int64 := TiB * 1024

  /** `b` to the power `e`. */
  function Pow(b: nat, e: nat): (r: nat)
    ensures b >= 1 ==> r >= 1
  {
    if e == 0 then 1 else b * Pow(b, e - 1)
  }

  /** Each power of 1024 is at least the same power of 1000. */
  lemma {:induction false} PowMonotone(e: nat)
    ensures Pow(1000, e) <= Pow(1024, e)
  {
    if e > 0 {
      PowMonotone(e - 1);
    }
  }

  /** Powers of 1024 are powers of two. */
  lemma {:induction false} PowOf1024(e: nat)
    ensures Pow(1024, e) == Pow(2, 10 * e)
  {
    if e > 0 {
      PowOf1024(e - 1);
      PowSplit(10 * (e - 1), 10);
    }
  }

  /** `2^(a + b) == 2^a * 2^b`. */
  lemma {:induction false} PowSplit(a: nat, b: nat)
    ensures Pow(2, a + b) == Pow(2, a) * Pow(2, b)
    decreases b
  {
    if b > 0 {
      PowSplit(a, b - 1);
    }
  }

  /** The decimal units are the powers of 1000: `KB == 1000` and `PB == 1000^5`. */
  lemma DecimalUnits()
    ensures KB as int == Pow(1000, 1) == 1000
    ensures MB as int == Pow(1000, 2)
    ensures GB as int == Pow(1000, 3)
    ensures TB as int == Pow(1000, 4)
    ensures PB as int == Pow(1000, 5)
  {
    assert Pow(1000, 5) == 1000 * Pow(1000, 4);
    assert Pow(1000, 4) == 1000 * Pow(1000, 3);
    assert Pow(1000, 3) == 1000 * Pow(1000, 2);
  }

  /** The binary units are the powers of 1024: `KiB == 1024` and `PiB == 2^50`. */
  lemma BinaryUnits()
    ensures KiB as int == Pow(1024, 1) == 1024
    ensures MiB as int == Pow(1024, 2)
    ensures GiB as int == Pow(1024, 3)
    ensures TiB as int == Pow(1024, 4)
    ensures PiB as int == Pow(1024, 5) == Pow(2, 50)
  {
    assert Pow(1024, 5) == 1024 * Pow(1024, 4);
    assert Pow(1024, 4) == 1024 * Pow(1024, 3);
    assert Pow(1024, 3) == 1024 * Pow(1024, 2);
    PowOf1024(5);
  }

  /** Each binary unit is at least the matching decimal unit, and the largest of them still fits a `long`. */
  lemma BinaryAtLeastDecimal()
    ensures KB <= KiB && MB <= MiB && GB <= GiB && TB <= TiB && PB <= PiB
    ensures PiB as int * 8192 == 0x8000_0000_0000_0000
  {
    DecimalUnits();
    BinaryUnits();
    PowMonotone(5);
  }
}
