/**
 Numbers below 2^32 as four bytes, least significant first.
 */
module LittleEndian {

  /** A byte as a number. */
  function Value(b: bv8): nat { b as nat }

  /** A number below 256 as a byte. */
  function AsByte(n: nat): bv8
    requires n < 0x100
  {
    n as bv8
  }

  function Worth(p: bool, w: nat): nat { if p then w else 0 }

  function Bit(p: bool, b: bv8): bv8 { if p then b else 0 }

  /** The byte with the given bits, and its value. */
  function FromBits(p7: bool, p6: bool, p5: bool, p4: bool, p3: bool, p2: bool, p1: bool, p0: bool): bv8
  {
    Bit(p7, 0x80) | Bit(p6, 0x40) | Bit(p5, 0x20) | Bit(p4, 0x10) | Bit(p3, 8) | Bit(p2, 4) | Bit(p1, 2) | Bit(p0, 1)
  }

  lemma ValueOfBits(p7: bool, p6: bool, p5: bool, p4: bool, p3: bool, p2: bool, p1: bool, p0: bool)
    ensures FromBits(p7, p6, p5, p4, p3, p2, p1, p0) as nat ==
              Worth(p7, 128) + Worth(p6, 64) + Worth(p5, 32) + Worth(p4, 16) + Worth(p3, 8) + Worth(p2, 4)
              + Worth(p1, 2) + Worth(p0, 1)
  {
  }

  lemma CastIsInverse(b: bv8, n: nat)
    requires b as nat == n
    ensures b == n as bv8
  {
  }

  function Half(n: nat): nat { n / 2 }

  predicate Odd(n: nat) { n % 2 == 1 }

  /** The lowest bit of a number and the rest. */
  lemma Halve(n: nat)
    ensures n == 2 * Half(n) + Worth(Odd(n), 1)
  {
  }

  lemma Binary(n: nat, h1: nat, h2: nat, h3: nat, h4: nat, h5: nat, h6: nat, h7: nat)
    requires n < 0x100 && h1 == Half(n) && h2 == Half(h1) && h3 == Half(h2) && h4 == Half(h3)
    requires h5 == Half(h4) && h6 == Half(h5) && h7 == Half(h6)
    ensures n == Worth(Odd(h7), 128) + Worth(Odd(h6), 64) + Worth(Odd(h5), 32) + Worth(Odd(h4), 16)
                 + Worth(Odd(h3), 8) + Worth(Odd(h2), 4) + Worth(Odd(h1), 2) + Worth(Odd(n), 1)
  {
    hide Half, Odd;
    Halve(n);
    Halve(h1);
    Halve(h2);
    Halve(h3);
    Halve(h4);
    Halve(h5);
    Halve(h6);
    Halve(h7);
  }

  lemma CastRoundTrip(n: nat)
    requires n < 0x100
    ensures (n as bv8) as nat == n
  {
    hide FromBits, Half, Odd, Worth;
    var h1 := Half(n);
    var h2 := Half(h1);
    var h3 := Half(h2);
    var h4 := Half(h3);
    var h5 := Half(h4);
    var h6 := Half(h5);
    var h7 := Half(h6);
    Binary(n, h1, h2, h3, h4, h5, h6, h7);
    ValueOfBits(Odd(h7), Odd(h6), Odd(h5), Odd(h4), Odd(h3), Odd(h2), Odd(h1), Odd(n));
    CastIsInverse(FromBits(Odd(h7), Odd(h6), Odd(h5), Odd(h4), Odd(h3), Odd(h2), Odd(h1), Odd(n)), n);
  }

  lemma ByteRoundTrip(n: nat)
    requires n < 0x100
    ensures Value(AsByte(n)) == n
  {
    CastRoundTrip(n);
  }

  /** A length as four little-endian bytes. */
  function SizeBytes(n: nat): (r: seq<bv8>)
    ensures |r| == 4
  {
    [AsByte(n % 0x100), AsByte(n / 0x100 % 0x100), AsByte(n / 0x1_0000 % 0x100), AsByte(n / 0x100_0000 % 0x100)]
  }

  /** The number that four bytes stand for. */
  function Number(a: bv8, b: bv8, c: bv8, d: bv8): nat
  {
    Value(a) + 0x100 * Value(b) + 0x1_0000 * Value(c) + 0x100_0000 * Value(d)
  }

  lemma DigitsAddUp(n: nat)
    requires n < 0x1_0000_0000
    ensures n % 0x100 + 0x100 * (n / 0x100 % 0x100) + 0x1_0000 * (n / 0x1_0000 % 0x100)
            + 0x100_0000 * (n / 0x100_0000 % 0x100) == n
  {
    var x := n / 0x100;
    var y := x / 0x100;
    assert y == n / 0x1_0000 && y / 0x100 == n / 0x100_0000;
  }

  /** The four bytes give the number back. */
  lemma SizeRoundTrip(n: nat)
    requires n < 0x1_0000_0000
    ensures var r := SizeBytes(n); Number(r[0], r[1], r[2], r[3]) == n
  {
    hide Value, AsByte;
    ByteRoundTrip(n % 0x100);
    ByteRoundTrip(n / 0x100 % 0x100);
    ByteRoundTrip(n / 0x1_0000 % 0x100);
    ByteRoundTrip(n / 0x100_0000 % 0x100);
    DigitsAddUp(n);
  }
}
