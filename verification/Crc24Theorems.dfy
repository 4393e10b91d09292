/** The checksum is a polynomial remainder, and no short burst of errors escapes it. */
module Crc24Theorems {
  import opened Common
  import opened Crc24

  // ----- remainder modulo POLY

  /** `a` and `b` differ by a multiple of the generator polynomial. */
  ghost predicate Congruent(a: nat, b: nat) {
    exists q: nat :: Product(q, POLY) == Xor(a, b)
  }

  lemma CongruentBy(a: nat, b: nat, q: nat)
    requires Product(q, POLY) == Xor(a, b)
    ensures Congruent(a, b)
  {
  }

  lemma CongruentChain(a: nat, b: nat, c: nat)
    requires Congruent(a, b) && Congruent(b, c)
    ensures Congruent(a, c)
  {
    var q: nat :| Product(q, POLY) == Xor(a, b);
    var r: nat :| Product(r, POLY) == Xor(b, c);
    ProductXor(q, r, POLY);
    XorAssociates(a, b, Xor(b, c));
    XorAssociates(b, b, c);
    XorZero(b);
    XorZero(c);
    CongruentBy(a, c, Xor(q, r));
  }

  lemma CongruentSum(a: nat, b: nat, m: nat)
    requires Congruent(a, b)
    ensures Congruent(Xor(a, m), Xor(b, m))
  {
    var q: nat :| Product(q, POLY) == Xor(a, b);
    XorExchange(a, m, b, m);
    XorZero(m);
    XorZero(Xor(a, b));
    CongruentBy(Xor(a, m), Xor(b, m), q);
  }

  lemma CongruentDouble(a: nat, b: nat)
    requires Congruent(a, b)
    ensures Congruent(2 * a, 2 * b)
  {
    var q: nat :| Product(q, POLY) == Xor(a, b);
    XorDouble(a, b);
    ProductStep(2 * q, POLY);
    XorZero(2 * Product(q, POLY));
    CongruentBy(2 * a, 2 * b, 2 * q);
  }

  lemma {:induction false} CongruentShift(a: nat, b: nat, k: nat)
    requires Congruent(a, b)
    ensures Congruent(Shift(a, k), Shift(b, k))
  {
    if k > 0 {
      CongruentShift(a, b, k - 1);
      CongruentDouble(Shift(a, k - 1), Shift(b, k - 1));
    }
  }

  lemma CongruentSelf(a: nat)
    ensures Congruent(a, a)
  {
    XorZero(a);
    CongruentBy(a, a, 0);
  }

  lemma BitStepCongruent(crc: nat)
    requires crc < TOP
    ensures Congruent(2 * crc, BitStep(crc))
  {
    if 2 * crc >= TOP {
      XorAssociates(2 * crc, 2 * crc, POLY);
      XorZero(2 * crc);
      XorZero(POLY);
      assert Product(1, POLY) == POLY;
      CongruentBy(2 * crc, BitStep(crc), 1);
    } else {
      CongruentSelf(2 * crc);
    }
  }

  lemma {:induction false} StepsCongruent(crc: nat, n: nat)
    requires crc < TOP
    ensures Congruent(Shift(crc, n), Steps(crc, n))
  {
    if n == 0 {
      CongruentSelf(crc);
    } else {
      StepsCongruent(crc, n - 1);
      CongruentDouble(Shift(crc, n - 1), Steps(crc, n - 1));
      BitStepCongruent(Steps(crc, n - 1));
      CongruentChain(Shift(crc, n), 2 * Steps(crc, n - 1), Steps(crc, n));
    }
  }

  lemma {:induction false} AppendBits(a: nat, b: nat, k: nat)
    requires b < Pow2(k)
    ensures Xor(Shift(a, k), b) == Shift(a, k) + b
  {
    XorZero(a);
    if k > 0 {
      AppendBits(a, b / 2, k - 1);
    }
  }

  lemma AppendOctet(a: nat, octet: Octet)
    ensures Xor(Shift(a, 8), octet) == 256 * a + octet
  {
    TopValues();
    AppendBits(a, octet, 8);
    assert Shift(a, 1) == 2 * a;
    assert Shift(a, 2) == 4 * a;
    assert Shift(a, 4) == 16 * a;
    assert Shift(a, 6) == 64 * a;
  }

  /** The message polynomial: the initial register in front of the data, the data moved up by 24. */
  function Message(data: seq<Octet>): nat {
    Xor(Shift(INIT, 8 * |data|), Shift(BigEndian(data), 24))
  }

  lemma MessageStep(data: seq<Octet>)
    requires data != []
    ensures Message(data) == Xor(Shift(Message(data[..|data| - 1]), 8), Shift(data[|data| - 1], 24))
  {
    var front, last := data[..|data| - 1], data[|data| - 1];
    var a, b := Shift(INIT, 8 * |front|), Shift(BigEndian(front), 24);
    ShiftXor(a, b, 8);
    ShiftTwice(INIT, 8 * |front|, 8);
    ShiftTwice(BigEndian(front), 24, 8);
    ShiftTwice(BigEndian(front), 8, 24);
    AppendOctet(BigEndian(front), last);
    ShiftXor(Shift(BigEndian(front), 8), last, 24);
    XorAssociates(Shift(a, 8), Shift(b, 8), Shift(last, 24));
  }

  lemma {:induction false} CrcCongruent(data: seq<Octet>)
    ensures Congruent(Message(data), Crc(data))
  {
    if data == [] {
      XorZero(INIT);
      assert Shift(0, 24) == 0 by { ShiftOfZero(24); }
      CongruentSelf(INIT);
    } else {
      var front, last := data[..|data| - 1], data[|data| - 1];
      CrcCongruent(front);
      CongruentShift(Message(front), Crc(front), 8);
      MessageStep(data);
      CongruentSum(Shift(Message(front), 8), Shift(Crc(front), 8), Shift(last, 24));
      OctetFits(Crc(front), last);
      ShiftXor(Crc(front), Shift(last, 16), 8);
      ShiftTwice(last, 16, 8);
      StepsCongruent(Xor(Crc(front), Shift(last, 16)), 8);
      CongruentChain(Message(data), Shift(Xor(Crc(front), Shift(last, 16)), 8), Crc(data));
    }
  }

  lemma {:induction false} ShiftOfZero(k: nat)
    ensures Shift(0, k) == 0
  {
    if k > 0 {
      ShiftOfZero(k - 1);
    }
  }

  /** A nonzero multiple of the generator has degree 24 or more. */
  lemma {:induction false} MultipleIsLarge(q: nat)
    requires q > 0
    ensures Product(q, POLY) >= TOP
  {
    TopValues();
    assert Pow2(25) == 2 * TOP;
    if q / 2 == 0 {
      assert q == 1;
      XorZero(POLY);
    } else {
      MultipleIsLarge(q / 2);
      XorKeepsHigh(2 * Product(q / 2, POLY), Term(q, POLY), 25);
    }
  }

  /**
   * The checksum is the remainder of the message polynomial modulo the generator:
   * congruent to it, below 2^24, and the only such polynomial.
   */
  lemma CrcIsRemainder(data: seq<Octet>, r: nat)
    requires r < TOP
    ensures Congruent(Message(data), r) <==> r == Crc(data)
  {
    CrcCongruent(data);
    if Congruent(Message(data), r) {
      var m, c := Message(data), Crc(data);
      XorCommutes(m, c);
      var q: nat :| Product(q, POLY) == Xor(m, c);
      CongruentBy(c, m, q);
      CongruentChain(c, m, r);
      var k: nat :| Product(k, POLY) == Xor(c, r);
      TopValues();
      XorBound(c, r, 24);
      if k > 0 {
        MultipleIsLarge(k);
        assert false;
      }
      XorZero(r);
      XorInjective(c, r, r);
    }
  }

  // ----- error detection

  lemma {:induction false} BitStepLinear(x: nat, y: nat)
    requires x < TOP && y < TOP && Xor(x, y) < TOP
    ensures BitStep(Xor(x, y)) == Xor(BitStep(x), BitStep(y))
  {
    TopValues();
    XorDouble(x, y);
    XorCommutes(x, y);
    XorCommutes(2 * y, POLY);
    XorZero(POLY);
    XorZero(Xor(2 * x, 2 * y));
    if 2 * x >= TOP && 2 * y >= TOP {
      XorCancelsTop(2 * x, 2 * y, 24);
      XorExchange(2 * x, POLY, 2 * y, POLY);
    } else if 2 * x >= TOP {
      XorKeepsHigh(2 * x, 2 * y, 24);
      XorAssociates(2 * x, POLY, 2 * y);
      XorAssociates(2 * x, 2 * y, POLY);
    } else if 2 * y >= TOP {
      XorKeepsHigh(2 * y, 2 * x, 24);
      XorCommutes(2 * x, 2 * y);
      XorAssociates(2 * x, 2 * y, POLY);
    } else {
      XorBound(2 * x, 2 * y, 24);
    }
  }

  lemma {:induction false} StepsLinear(x: nat, y: nat, n: nat)
    requires x < TOP && y < TOP && Xor(x, y) < TOP
    ensures Steps(Xor(x, y), n) == Xor(Steps(x, n), Steps(y, n))
  {
    if n > 0 {
      StepsLinear(x, y, n - 1);
      BitStepLinear(Steps(x, n - 1), Steps(y, n - 1));
    }
  }

  lemma {:induction false} StepsWithoutFeedback(y: nat, n: nat)
    requires Shift(y, n) < TOP
    ensures y < TOP && Steps(y, n) == Shift(y, n)
  {
    if n > 0 {
      StepsWithoutFeedback(y, n - 1);
    }
  }

  lemma {:induction false} StepsCompose(x: nat, m: nat, n: nat)
    requires x < TOP
    ensures Steps(Steps(x, m), n) == Steps(x, m + n)
  {
    if n > 0 {
      StepsCompose(x, m, n - 1);
    }
  }

  lemma BitStepInjective(x: nat, y: nat)
    requires x < TOP && y < TOP && BitStep(x) == BitStep(y)
    ensures x == y
  {
    XorParts(2 * x, POLY);
    XorParts(2 * y, POLY);
    if 2 * x >= TOP && 2 * y >= TOP {
      XorInjective(2 * x, 2 * y, POLY);
    }
  }

  lemma {:induction false} StepsInjective(x: nat, y: nat, n: nat)
    requires x < TOP && y < TOP && Steps(x, n) == Steps(y, n)
    ensures x == y
  {
    if n > 0 {
      BitStepInjective(Steps(x, n - 1), Steps(y, n - 1));
      StepsInjective(x, y, n - 1);
    }
  }

  lemma OctetStepInjective(x: nat, y: nat, octet: Octet)
    requires x < TOP && y < TOP && OctetStep(x, octet) == OctetStep(y, octet)
    ensures x == y
  {
    OctetFits(x, octet);
    OctetFits(y, octet);
    StepsInjective(Xor(x, Shift(octet, 16)), Xor(y, Shift(octet, 16)), 8);
    XorInjective(x, y, Shift(octet, 16));
  }

  lemma {:induction false} CrcInjective(x: nat, y: nat, data: seq<Octet>)
    requires x < TOP && y < TOP && CrcFrom(x, data) == CrcFrom(y, data)
    ensures x == y
  {
    if data != [] {
      var front := data[..|data| - 1];
      OctetStepInjective(CrcFrom(x, front), CrcFrom(y, front), data[|data| - 1]);
      CrcInjective(x, y, front);
    }
  }

  lemma {:induction false} CrcConcat(crc: nat, a: seq<Octet>, b: seq<Octet>)
    requires crc < TOP
    ensures CrcFrom(crc, a + b) == CrcFrom(CrcFrom(crc, a), b)
  {
    if b == [] {
      assert a + b == a;
    } else {
      var front := b[..|b| - 1];
      CrcConcat(crc, a, front);
      assert (a + b)[..|a + b| - 1] == a + front;
    }
  }

  lemma {:induction false} BigEndianBound(w: seq<Octet>)
    ensures BigEndian(w) < Pow2(8 * |w|)
  {
    if w != [] {
      BigEndianBound(w[..|w| - 1]);
      var k := 8 * (|w| - 1);
      assert Pow2(k + 2) == 4 * Pow2(k);
      assert Pow2(k + 4) == 16 * Pow2(k);
      assert Pow2(k + 6) == 64 * Pow2(k);
    }
  }

  lemma {:induction false} BigEndianInjective(v: seq<Octet>, w: seq<Octet>)
    requires |v| == |w| && BigEndian(v) == BigEndian(w)
    ensures v == w
  {
    if v != [] {
      BigEndianInjective(v[..|v| - 1], w[..|w| - 1]);
      assert v == v[..|v| - 1] + [v[|v| - 1]];
      assert w == w[..|w| - 1] + [w[|w| - 1]];
    }
  }

  /** Up to three octets, lined up with the top of the register. */
  function Window(w: seq<Octet>): nat
    requires |w| <= 3
  {
    Shift(BigEndian(w), 24 - 8 * |w|)
  }

  lemma WindowFits(crc: nat, w: seq<Octet>)
    requires |w| <= 3 && crc < TOP
    ensures Window(w) < TOP && Xor(crc, Window(w)) < TOP
  {
    TopValues();
    BigEndianBound(w);
    ShiftBound(BigEndian(w), 8 * |w|, 24 - 8 * |w|);
    XorBound(crc, Window(w), 24);
  }

  lemma WindowStep(w: seq<Octet>)
    requires 0 < |w| <= 3
    ensures Window(w) == Xor(Window(w[..|w| - 1]), Shift(w[|w| - 1], 24 - 8 * |w|))
  {
    var front, last, k := w[..|w| - 1], w[|w| - 1], 24 - 8 * |w|;
    AppendOctet(BigEndian(front), last);
    ShiftXor(Shift(BigEndian(front), 8), last, k);
    ShiftTwice(BigEndian(front), 8, k);
  }

  /** A window of octets enters the register as if added to it at once. */
  lemma {:induction false} CrcOfWindow(crc: nat, w: seq<Octet>)
    requires |w| <= 3 && crc < TOP
    ensures Xor(crc, Window(w)) < TOP
    ensures CrcFrom(crc, w) == Steps(Xor(crc, Window(w)), 8 * |w|)
  {
    WindowFits(crc, w);
    if w == [] {
      ShiftOfZero(24);
      XorZero(crc);
    } else {
      var front, last := w[..|w| - 1], w[|w| - 1];
      var k, n := 24 - 8 * |w|, 8 * |front|;
      var x, y := Xor(crc, Window(front)), Shift(last, k);
      CrcOfWindow(crc, front);
      WindowStep(w);
      XorAssociates(crc, Window(front), y);
      OctetFits(CrcFrom(crc, front), last);
      ShiftTwice(last, k, n);
      StepsWithoutFeedback(y, n);
      StepsLinear(x, y, n);
      StepsCompose(Xor(x, y), n, 8);
    }
  }

  /**
   * Inputs of equal length that differ only within three consecutive octets, and
   * so in particular within one, never share a checksum.
   */
  lemma ShortBurstIsDetected(before: seq<Octet>, v: seq<Octet>, w: seq<Octet>, after: seq<Octet>)
    requires |v| == |w| <= 3 && v != w
    ensures Crc(before + v + after) != Crc(before + w + after)
  {
    if Crc(before + v + after) == Crc(before + w + after) {
      var c := Crc(before);
      CrcConcat(INIT, before + v, after);
      CrcConcat(INIT, before + w, after);
      CrcConcat(INIT, before, v);
      CrcConcat(INIT, before, w);
      CrcInjective(CrcFrom(c, v), CrcFrom(c, w), after);
      CrcOfWindow(c, v);
      CrcOfWindow(c, w);
      StepsInjective(Xor(c, Window(v)), Xor(c, Window(w)), 8 * |v|);
      XorCommutes(c, Window(v));
      XorCommutes(c, Window(w));
      XorInjective(Window(v), Window(w), c);
      ShiftInjective(BigEndian(v), BigEndian(w), 24 - 8 * |v|);
      BigEndianInjective(v, w);
      assert false;
    }
  }

  // ----- bursts at any bit position

  lemma EvenXor(d: nat, t: nat)
    requires d % 2 == 0
    ensures Xor(d, t) % 2 == t % 2
  {
    XorParts(d, t);
  }

  /** A multiple of a polynomial with a constant term is divisible by x only if the factor is. */
  lemma ProductParity(q: nat, p: nat)
    requires p % 2 == 1
    ensures Product(q, p) % 2 == q % 2
  {
    ProductStep(q, p);
    EvenXor(2 * Product(q / 2, p), Term(q, p));
  }

  lemma EvenProduct(q: nat, p: nat)
    requires q % 2 == 0
    ensures Product(q, p) == 2 * Product(q / 2, p)
  {
    ProductStep(q, p);
    XorZero(2 * Product(q / 2, p));
  }

  lemma DivideByX(q: nat, p: nat, e: nat, k: nat)
    requires p % 2 == 1 && k > 0 && Product(q, p) == Shift(e, k)
    ensures Product(q / 2, p) == Shift(e, k - 1)
  {
    assert Shift(e, k) == 2 * Shift(e, k - 1);
    ProductParity(q, p);
    EvenProduct(q, p);
  }

  /** No multiple of the generator is a short polynomial moved up. */
  lemma {:induction false} ShortIsNoMultiple(q: nat, e: nat, k: nat)
    requires 0 < e < TOP
    ensures Product(q, POLY) != Shift(e, k)
    decreases k
  {
    if k > 0 {
      if Product(q, POLY) == Shift(e, k) {
        DivideByX(q, POLY, e, k);
        ShortIsNoMultiple(q / 2, e, k - 1);
      }
    } else if q > 0 {
      MultipleIsLarge(q);
    }
  }

  lemma MessagesDiffer(v: seq<Octet>, w: seq<Octet>)
    requires |v| == |w|
    ensures Xor(Message(v), Message(w)) == Shift(Xor(BigEndian(v), BigEndian(w)), 24)
  {
    var init := Shift(INIT, 8 * |v|);
    XorExchange(init, Shift(BigEndian(v), 24), init, Shift(BigEndian(w), 24));
    XorZero(init);
    ShiftXor(BigEndian(v), BigEndian(w), 24);
    XorZero(Shift(Xor(BigEndian(v), BigEndian(w)), 24));
  }

  lemma CongruentSwap(a: nat, b: nat)
    requires Congruent(a, b)
    ensures Congruent(b, a)
  {
    var q: nat :| Product(q, POLY) == Xor(a, b);
    XorCommutes(a, b);
    CongruentBy(b, a, q);
  }

  /**
   * Inputs of equal length whose bits differ only within 24 consecutive positions,
   * aligned to octets or not, never share a checksum.
   */
  lemma BitBurstIsDetected(v: seq<Octet>, w: seq<Octet>, e: nat, k: nat)
    requires |v| == |w| && 0 < e < TOP
    requires Xor(BigEndian(v), BigEndian(w)) == Shift(e, k)
    ensures Crc(v) != Crc(w)
  {
    if Crc(v) == Crc(w) {
      CrcCongruent(v);
      CrcCongruent(w);
      CongruentSwap(Message(w), Crc(w));
      CongruentChain(Message(v), Crc(v), Message(w));
      var q: nat :| Product(q, POLY) == Xor(Message(v), Message(w));
      MessagesDiffer(v, w);
      ShiftTwice(e, k, 24);
      ShortIsNoMultiple(q, e, k + 24);
    }
  }
}
