/**
 * The armor checksum of `rust/src/inspect.rs` (section 6.1 of RFC 4880).
 *
 * A natural number stands for the polynomial over GF(2) whose coefficients are
 * its bits, so that adding polynomials is exclusive or and multiplying by x is
 * doubling.
 */
module Crc24 {
  import opened Common

  const INIT: nat := 0xB704CE
  const POLY: nat := 0x1864CFB
  const TOP: nat := 0x100_0000

  // ----- polynomials over GF(2)

  /** Bitwise exclusive or. */
  function Xor(a: nat, b: nat): nat {
    if a == 0 && b == 0 then 0
    else 2 * Xor(a / 2, b / 2) + (if a % 2 == b % 2 then 0 else 1)
  }

  lemma {:induction false} XorZero(a: nat)
    ensures Xor(a, 0) == a && Xor(0, a) == a && Xor(a, a) == 0
  {
    if a > 0 {
      XorZero(a / 2);
    }
  }

  lemma {:induction false} XorCommutes(a: nat, b: nat)
    ensures Xor(a, b) == Xor(b, a)
  {
    if a > 0 || b > 0 {
      XorCommutes(a / 2, b / 2);
    }
  }

  lemma {:induction false} XorAssociates(a: nat, b: nat, c: nat)
    ensures Xor(Xor(a, b), c) == Xor(a, Xor(b, c))
  {
    if a > 0 || b > 0 || c > 0 {
      XorAssociates(a / 2, b / 2, c / 2);
      var left, right := Xor(Xor(a, b), c), Xor(a, Xor(b, c));
      XorParts(a, b);
      XorParts(b, c);
      XorParts(Xor(a, b), c);
      XorParts(a, Xor(b, c));
      SameParts(left, right);
    }
  }

  lemma SameParts(a: nat, b: nat)
    requires a / 2 == b / 2 && a % 2 == b % 2
    ensures a == b
  {
  }

  lemma XorParts(a: nat, b: nat)
    ensures Xor(a, b) / 2 == Xor(a / 2, b / 2)
    ensures Xor(a, b) % 2 == if a % 2 == b % 2 then 0 else 1
  {
  }

  lemma XorDouble(a: nat, b: nat)
    ensures Xor(2 * a, 2 * b) == 2 * Xor(a, b)
  {
  }

  lemma {:induction false} XorBound(a: nat, b: nat, k: nat)
    requires a < Pow2(k) && b < Pow2(k)
    ensures Xor(a, b) < Pow2(k)
  {
    if k > 0 {
      XorBound(a / 2, b / 2, k - 1);
    }
  }

  /** A leading bit only one of the two has stays. */
  lemma {:induction false} XorKeepsHigh(a: nat, b: nat, k: nat)
    requires Pow2(k) <= a && b < Pow2(k)
    ensures Pow2(k) <= Xor(a, b)
  {
    if k > 0 {
      XorKeepsHigh(a / 2, b / 2, k - 1);
    } else {
      XorZero(a);
    }
  }

  /** A leading bit both have cancels. */
  lemma {:induction false} XorCancelsTop(a: nat, b: nat, k: nat)
    requires Pow2(k) <= a < 2 * Pow2(k) && Pow2(k) <= b < 2 * Pow2(k)
    ensures Xor(a, b) < Pow2(k)
  {
    if k > 0 {
      XorCancelsTop(a / 2, b / 2, k - 1);
    } else {
      XorZero(1);
    }
  }

  lemma XorInjective(a: nat, b: nat, c: nat)
    requires Xor(a, c) == Xor(b, c)
    ensures a == b
  {
    XorAssociates(a, c, c);
    XorAssociates(b, c, c);
    XorZero(c);
    XorZero(a);
    XorZero(b);
  }

  /** (a + b) + (c + d) = (a + c) + (b + d) */
  lemma XorExchange(a: nat, b: nat, c: nat, d: nat)
    ensures Xor(Xor(a, b), Xor(c, d)) == Xor(Xor(a, c), Xor(b, d))
  {
    XorAssociates(a, b, Xor(c, d));
    XorAssociates(b, c, d);
    XorCommutes(b, c);
    XorAssociates(c, b, d);
    XorAssociates(a, c, Xor(b, d));
  }

  /** Multiplication by x to the k. */
  function Shift(a: nat, k: nat): nat {
    if k == 0 then a else 2 * Shift(a, k - 1)
  }

  lemma {:induction false} ShiftXor(a: nat, b: nat, k: nat)
    ensures Shift(Xor(a, b), k) == Xor(Shift(a, k), Shift(b, k))
  {
    if k > 0 {
      ShiftXor(a, b, k - 1);
      XorDouble(Shift(a, k - 1), Shift(b, k - 1));
    }
  }

  lemma {:induction false} ShiftTwice(a: nat, j: nat, k: nat)
    ensures Shift(Shift(a, j), k) == Shift(a, j + k)
  {
    if k > 0 {
      ShiftTwice(a, j, k - 1);
    }
  }

  lemma {:induction false} ShiftBound(a: nat, j: nat, k: nat)
    requires a < Pow2(j)
    ensures Shift(a, k) < Pow2(j + k)
  {
    if k > 0 {
      ShiftBound(a, j, k - 1);
    }
  }

  lemma {:induction false} ShiftInjective(a: nat, b: nat, k: nat)
    requires Shift(a, k) == Shift(b, k)
    ensures a == b
  {
    if k > 0 {
      ShiftInjective(a, b, k - 1);
    }
  }

  function Term(q: nat, p: nat): nat {
    if q % 2 == 1 then p else 0
  }

  /** The product of two polynomials. */
  function Product(q: nat, p: nat): nat {
    if q == 0 then 0 else Xor(2 * Product(q / 2, p), Term(q, p))
  }

  lemma {:induction false} ProductXor(q: nat, r: nat, p: nat)
    ensures Product(Xor(q, r), p) == Xor(Product(q, p), Product(r, p))
  {
    XorZero(0);
    if q > 0 || r > 0 {
      ProductXor(q / 2, r / 2, p);
      XorParts(q, r);
      ProductStep(q, p);
      ProductStep(r, p);
      ProductStep(Xor(q, r), p);
      XorDouble(Product(q / 2, p), Product(r / 2, p));
      XorExchange(2 * Product(q / 2, p), Term(q, p), 2 * Product(r / 2, p), Term(r, p));
      XorZero(p);
    }
  }

  lemma ProductStep(q: nat, p: nat)
    ensures Product(q, p) == Xor(2 * Product(q / 2, p), Term(q, p))
  {
    XorZero(0);
  }

  // ----- the checksum

  /** One step of the bit loop. */
  function BitStep(crc: nat): (r: nat)
    requires crc < TOP
    ensures r < TOP
  {
    var doubled := 2 * crc;
    if doubled >= TOP then
      TopValues();
      XorCancelsTop(doubled, POLY, 24);
      Xor(doubled, POLY)
    else doubled
  }

  lemma TopValues()
    ensures Pow2(24) == TOP && Pow2(8) == 256 && Pow2(23) == TOP / 2 && Pow2(16) == 65536
  {
    assert Pow2(4) == 16;
    assert Pow2(8) == 256;
    assert Pow2(12) == 4096;
    assert Pow2(16) == 65536;
    assert Pow2(20) == 1048576;
    assert Pow2(23) == 8388608;
  }

  function Steps(crc: nat, n: nat): (r: nat)
    requires crc < TOP
    ensures r < TOP
  {
    if n == 0 then crc else BitStep(Steps(crc, n - 1))
  }

  lemma OctetFits(crc: nat, octet: Octet)
    requires crc < TOP
    ensures Shift(octet, 16) < TOP && Xor(crc, Shift(octet, 16)) < TOP
  {
    TopValues();
    ShiftBound(octet, 8, 16);
    XorBound(crc, Shift(octet, 16), 24);
  }

  function OctetStep(crc: nat, octet: Octet): (r: nat)
    requires crc < TOP
    ensures r < TOP
  {
    OctetFits(crc, octet);
    Steps(Xor(crc, Shift(octet, 16)), 8)
  }

  function CrcFrom(crc: nat, data: seq<Octet>): (r: nat)
    requires crc < TOP
    ensures r < TOP
  {
    if data == [] then crc else OctetStep(CrcFrom(crc, data[..|data| - 1]), data[|data| - 1])
  }

  function Crc(data: seq<Octet>): (r: nat)
    ensures r < TOP
  {
    CrcFrom(INIT, data)
  }

  /** The nested loop, with the register as the program keeps it. */
  method ComputeCrc(data: seq<Octet>) returns (crc: nat)
    ensures crc == Crc(data)
  {
    crc := INIT;
    for i := 0 to |data|
      invariant crc == CrcFrom(INIT, data[..i])
    {
      assert data[..i + 1][..i] == data[..i];
      OctetFits(crc, data[i]);
      crc := Xor(crc, Shift(data[i], 16));
      ghost var start := crc;
      for bit := 0 to 8
        invariant crc == Steps(start, bit)
      {
        ghost var before := crc;
        crc := 2 * crc;
        if crc >= TOP {
          crc := Xor(crc, POLY);
        }
        assert crc == BitStep(before);
      }
    }
    assert data[..|data|] == data;
    crc := crc % TOP;
  }
}
