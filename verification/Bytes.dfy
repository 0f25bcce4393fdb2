/** Bytes, and Go's conversions between them and ints. */
module Bytes {
  type byte = bv8

  function FromBits(x0: bool, x1: bool, x2: bool, x3: bool, x4: bool, x5: bool, x6: bool, x7: bool): byte {
    (if x0 then 1 else 0) | (if x1 then 2 else 0) | (if x2 then 4 else 0) | (if x3 then 8 else 0) |
    (if x4 then 16 else 0) | (if x5 then 32 else 0) | (if x6 then 64 else 0) | (if x7 then 128 else 0)
  }

  predicate Odd(n: int) {
    n % 2 == 1
  }

  /** Go's conversion of an int to a byte keeps the low eight bits. */
  function ToByte(n: int): byte {
    var n1 := n / 2;
    var n2 := n1 / 2;
    var n3 := n2 / 2;
    var n4 := n3 / 2;
    var n5 := n4 / 2;
    var n6 := n5 / 2;
    var n7 := n6 / 2;
    FromBits(Odd(n), Odd(n1), Odd(n2), Odd(n3), Odd(n4), Odd(n5), Odd(n6), Odd(n7))
  }

  function Weighed(x: bool, weight: nat): (n: nat)
    ensures n <= weight
  {
    if x then weight else 0
  }

  function Sum(x0: bool, x1: bool, x2: bool, x3: bool, x4: bool, x5: bool, x6: bool, x7: bool): nat {
    Weighed(x0, 1) + Weighed(x1, 2) + Weighed(x2, 4) + Weighed(x3, 8) +
    Weighed(x4, 16) + Weighed(x5, 32) + Weighed(x6, 64) + Weighed(x7, 128)
  }

  /** The value of a byte. */
  function IntOf(b: byte): (n: int)
    ensures 0 <= n < 256
  {
    SumBelow(b & 1 != 0, b & 2 != 0, b & 4 != 0, b & 8 != 0, b & 16 != 0, b & 32 != 0, b & 64 != 0, b & 128 != 0);
    Sum(b & 1 != 0, b & 2 != 0, b & 4 != 0, b & 8 != 0, b & 16 != 0, b & 32 != 0, b & 64 != 0, b & 128 != 0)
  }

  lemma BitsOf(x0: bool, x1: bool, x2: bool, x3: bool, x4: bool, x5: bool, x6: bool, x7: bool)
    ensures var b := FromBits(x0, x1, x2, x3, x4, x5, x6, x7);
            && (b & 1 != 0 <==> x0) && (b & 2 != 0 <==> x1) && (b & 4 != 0 <==> x2) && (b & 8 != 0 <==> x3)
            && (b & 16 != 0 <==> x4) && (b & 32 != 0 <==> x5) && (b & 64 != 0 <==> x6) && (b & 128 != 0 <==> x7)
  {
  }

  lemma SumOf(x0: bool, x1: bool, x2: bool, x3: bool, x4: bool, x5: bool, x6: bool, x7: bool)
    ensures IntOf(FromBits(x0, x1, x2, x3, x4, x5, x6, x7)) == Sum(x0, x1, x2, x3, x4, x5, x6, x7)
  {
    BitsOf(x0, x1, x2, x3, x4, x5, x6, x7);
    hide FromBits, Sum;
  }

  lemma SumBelow(x0: bool, x1: bool, x2: bool, x3: bool, x4: bool, x5: bool, x6: bool, x7: bool)
    ensures Sum(x0, x1, x2, x3, x4, x5, x6, x7) < 256
  {
    hide Weighed;
  }

  lemma Halve(n: int, weight: nat)
    ensures weight * n == Weighed(Odd(n), weight) + weight * 2 * (n / 2)
  {
  }

  lemma Digits(n: int, n1: int, n2: int, n3: int, n4: int, n5: int, n6: int, n7: int, n8: int)
    requires 1 * n == Weighed(Odd(n), 1) + 2 * n1 && 2 * n1 == Weighed(Odd(n1), 2) + 4 * n2
    requires 4 * n2 == Weighed(Odd(n2), 4) + 8 * n3 && 8 * n3 == Weighed(Odd(n3), 8) + 16 * n4
    requires 16 * n4 == Weighed(Odd(n4), 16) + 32 * n5 && 32 * n5 == Weighed(Odd(n5), 32) + 64 * n6
    requires 64 * n6 == Weighed(Odd(n6), 64) + 128 * n7 && 128 * n7 == Weighed(Odd(n7), 128) + 256 * n8
    ensures Sum(Odd(n), Odd(n1), Odd(n2), Odd(n3), Odd(n4), Odd(n5), Odd(n6), Odd(n7)) == n - 256 * n8
  {
    hide Odd, Weighed;
  }

  lemma Remainder(s: int, n: int, k: int)
    requires 0 <= s < 256 && s == n - 256 * k
    ensures s == n % 256
  {
  }

  lemma DigitsOf(n: int)
    ensures var n1 := n / 2; var n2 := n1 / 2; var n3 := n2 / 2; var n4 := n3 / 2;
            var n5 := n4 / 2; var n6 := n5 / 2; var n7 := n6 / 2;
            Sum(Odd(n), Odd(n1), Odd(n2), Odd(n3), Odd(n4), Odd(n5), Odd(n6), Odd(n7)) == n % 256
  {
    var n1 := n / 2;
    var n2 := n1 / 2;
    var n3 := n2 / 2;
    var n4 := n3 / 2;
    var n5 := n4 / 2;
    var n6 := n5 / 2;
    var n7 := n6 / 2;
    hide Odd, Weighed, Sum;
    Halve(n, 1);
    Halve(n1, 2);
    Halve(n2, 4);
    Halve(n3, 8);
    Halve(n4, 16);
    Halve(n5, 32);
    Halve(n6, 64);
    Halve(n7, 128);
    Digits(n, n1, n2, n3, n4, n5, n6, n7, n7 / 2);
    SumBelow(Odd(n), Odd(n1), Odd(n2), Odd(n3), Odd(n4), Odd(n5), Odd(n6), Odd(n7));
    Remainder(Sum(Odd(n), Odd(n1), Odd(n2), Odd(n3), Odd(n4), Odd(n5), Odd(n6), Odd(n7)), n, n7 / 2);
  }

  lemma ByteRoundTrip(n: int)
    ensures IntOf(ToByte(n)) == n % 256
  {
    var n1 := n / 2;
    var n2 := n1 / 2;
    var n3 := n2 / 2;
    var n4 := n3 / 2;
    var n5 := n4 / 2;
    var n6 := n5 / 2;
    var n7 := n6 / 2;
    hide FromBits, Odd, Sum, IntOf;
    SumOf(Odd(n), Odd(n1), Odd(n2), Odd(n3), Odd(n4), Odd(n5), Odd(n6), Odd(n7));
    DigitsOf(n);
  }

  lemma Weight(x: bool, weight: nat)
    ensures Weighed(x, weight) == weight * Weighed(x, 1)
  {
  }

  lemma AboveHalves(x: bool, rest: nat)
    ensures Odd(Above(x, rest)) == x && Above(x, rest) / 2 == rest
  {
  }

  lemma BitsBack(b: byte)
    ensures b == FromBits(b & 1 != 0, b & 2 != 0, b & 4 != 0, b & 8 != 0,
                          b & 16 != 0, b & 32 != 0, b & 64 != 0, b & 128 != 0)
  {
  }

  function Above(x: bool, rest: nat): nat {
    Weighed(x, 1) + 2 * rest
  }

  lemma SumNested(x0: bool, x1: bool, x2: bool, x3: bool, x4: bool, x5: bool, x6: bool, x7: bool)
    ensures Sum(x0, x1, x2, x3, x4, x5, x6, x7) ==
            Above(x0, Above(x1, Above(x2, Above(x3, Above(x4, Above(x5, Above(x6, Above(x7, 0))))))))
  {
    hide Weighed;
    Weight(x1, 2);
    Weight(x2, 4);
    Weight(x3, 8);
    Weight(x4, 16);
    Weight(x5, 32);
    Weight(x6, 64);
    Weight(x7, 128);
  }

  lemma SumDigits(x0: bool, x1: bool, x2: bool, x3: bool, x4: bool, x5: bool, x6: bool, x7: bool)
    ensures ToByte(Sum(x0, x1, x2, x3, x4, x5, x6, x7)) == FromBits(x0, x1, x2, x3, x4, x5, x6, x7)
  {
    hide FromBits, Odd, Sum, Above;
    SumNested(x0, x1, x2, x3, x4, x5, x6, x7);
    var n7 := Above(x7, 0);
    var n6 := Above(x6, n7);
    var n5 := Above(x5, n6);
    var n4 := Above(x4, n5);
    var n3 := Above(x3, n4);
    var n2 := Above(x2, n3);
    var n1 := Above(x1, n2);
    AboveHalves(x0, n1);
    AboveHalves(x1, n2);
    AboveHalves(x2, n3);
    AboveHalves(x3, n4);
    AboveHalves(x4, n5);
    AboveHalves(x5, n6);
    AboveHalves(x6, n7);
    AboveHalves(x7, 0);
  }

  /** No byte is lost on the way through an int. */
  lemma IntRoundTrip(b: byte)
    ensures ToByte(IntOf(b)) == b
  {
    hide FromBits, Sum, ToByte;
    SumDigits(b & 1 != 0, b & 2 != 0, b & 4 != 0, b & 8 != 0, b & 16 != 0, b & 32 != 0, b & 64 != 0, b & 128 != 0);
    BitsBack(b);
  }

  /** Bit for bit, the conversions are those of the machine: the k-th power of two is the k-th bit. */
  lemma BitWeights()
    ensures ToByte(1) == 1 && ToByte(2) == 2 && ToByte(4) == 4 && ToByte(8) == 8
    ensures ToByte(16) == 16 && ToByte(32) == 32 && ToByte(64) == 64 && ToByte(128) == 128
    ensures IntOf(1) == 1 && IntOf(2) == 2 && IntOf(4) == 4 && IntOf(8) == 8
    ensures IntOf(16) == 16 && IntOf(32) == 32 && IntOf(64) == 64 && IntOf(128) == 128
  {
  }
}
