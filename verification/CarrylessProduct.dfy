/** What a product in GF(256) means: carry-less multiplication of polynomials over GF(2), reduced
    modulo X^8 + X^4 + X^3 + X + 1. The shift-and-reduce loop computes exactly this remainder. */
module CarrylessProduct {
  import opened GF256

  const MODULUS: bv16 := 0x11B

  function Xor(a: bv16, b: bv16): bv16 { a ^ b }

  function Wide(a: bv8): bv16 { a as bv16 }

  function Double(a: bv16): bv16 { a << 1 }

  function PickWide(b: bv8, a: bv16): bv16 { if b & 1 == 1 then a else 0 }

  /** The product of the polynomials a and b over GF(2), taking the n low coefficients of b. */
  function Carryless(a: bv16, b: bv8, n: nat): bv16
    decreases n
  {
    if n == 0 then 0 else Xor(PickWide(b, a), Carryless(Double(a), Half(b), n - 1))
  }

  /** b has degree below n. */
  predicate Fits(b: bv8, n: nat)
    decreases n
  {
    if n == 0 then b == 0 else Fits(Half(b), n - 1)
  }

  lemma XorAssoc(a: bv16, b: bv16, c: bv16)
    ensures Xor(Xor(a, b), c) == Xor(a, Xor(b, c))
  {}

  lemma XorZero(a: bv16)
    ensures Xor(a, 0) == a && Xor(0, a) == a
  {}

  lemma XorSame(a: bv16)
    ensures Xor(a, a) == 0
  {}

  lemma XorComm(a: bv16, b: bv16)
    ensures Xor(a, b) == Xor(b, a)
  {}

  lemma XorSwap(p: bv16, q: bv16, r: bv16, s: bv16)
    ensures Xor(Xor(p, q), Xor(r, s)) == Xor(Xor(p, r), Xor(q, s))
  {
    hide *;
    XorAssoc(p, q, Xor(r, s));
    XorAssoc(q, r, s);
    XorComm(q, r);
    XorAssoc(r, q, s);
    XorAssoc(p, r, Xor(q, s));
  }

  lemma WideAdd(a: bv8, b: bv8)
    ensures Wide(Add(a, b)) == Xor(Wide(a), Wide(b))
  {}

  lemma DoubleAdd(w: bv16, v: bv16)
    ensures Double(Xor(w, v)) == Xor(Double(w), Double(v))
  {}

  lemma PickAdd(c: bv8, w: bv16, v: bv16)
    ensures PickWide(c, Xor(w, v)) == Xor(PickWide(c, w), PickWide(c, v))
  {
    XorZero(0);
    hide Xor;
  }

  lemma PickOfSum(a: bv8, b: bv8, w: bv16)
    ensures PickWide(Add(a, b), w) == Xor(PickWide(a, w), PickWide(b, w))
  {
    OddSum(a, b);
    XorSame(w);
    XorZero(w);
    XorZero(0);
    hide Xor, Add;
  }

  lemma OddSum(a: bv8, b: bv8)
    ensures Add(a, b) & 1 == 1 <==> (a & 1 == 1) != (b & 1 == 1)
  {}

  lemma PickOfWide(c: bv8, a: bv8)
    ensures PickWide(c, Wide(a)) == Wide(Pick(c, a))
  {}

  lemma PickDouble(c: bv8, w: bv16)
    ensures PickWide(c, Double(w)) == Double(PickWide(c, w))
  {}

  lemma {:induction false} CarrylessAddLeft(a: bv16, d: bv16, b: bv8, n: nat)
    ensures Carryless(Xor(a, d), b, n) == Xor(Carryless(a, b, n), Carryless(d, b, n))
    decreases n
  {
    hide Xor, Double, PickWide, Half;
    if n > 0 {
      DoubleAdd(a, d);
      PickAdd(b, a, d);
      CarrylessAddLeft(Double(a), Double(d), Half(b), n - 1);
      XorSwap(PickWide(b, a), PickWide(b, d), Carryless(Double(a), Half(b), n - 1), Carryless(Double(d), Half(b), n - 1));
    } else {
      XorZero(0);
    }
  }

  lemma {:induction false} CarrylessAddRight(a: bv16, b: bv8, c: bv8, n: nat)
    ensures Carryless(a, Add(b, c), n) == Xor(Carryless(a, b, n), Carryless(a, c, n))
    decreases n
  {
    hide Xor, Double, PickWide, Half, Add;
    if n > 0 {
      PickOfSum(b, c, a);
      HalfAdditive(b, c);
      CarrylessAddRight(Double(a), Half(b), Half(c), n - 1);
      XorSwap(PickWide(b, a), PickWide(c, a), Carryless(Double(a), Half(b), n - 1), Carryless(Double(a), Half(c), n - 1));
    } else {
      XorZero(0);
    }
  }

  lemma {:induction false} CarrylessDouble(a: bv16, b: bv8, n: nat)
    ensures Carryless(Double(a), b, n) == Double(Carryless(a, b, n))
    decreases n
  {
    hide Xor, PickWide, Half;
    if n > 0 {
      CarrylessDouble(Double(a), Half(b), n - 1);
      DoubleAdd(PickWide(b, a), Carryless(Double(a), Half(b), n - 1));
      PickDouble(b, a);
    }
  }

  lemma {:induction false} CarrylessZero(a: bv16, n: nat)
    ensures Carryless(a, 0, n) == 0
    decreases n
  {
    if n > 0 {
      assert Half(0) == 0 && PickWide(0, a) == 0;
      XorZero(0);
      CarrylessZero(Double(a), n - 1);
    }
  }

  lemma {:induction false} CarrylessFits(a: bv16, b: bv8, n: nat)
    requires Fits(b, n)
    ensures Carryless(a, b, n + 1) == Carryless(a, b, n)
    decreases n
  {
    hide Xor, Double, PickWide, Half;
    if n == 0 {
      CarrylessZero(a, 1);
    } else {
      CarrylessFits(Double(a), Half(b), n - 1);
    }
  }

  lemma FitsShift(b: bv8, n: nat)
    requires Fits(b, n) && n < 8
    ensures Fits(Shift(b), n + 1) && Fits(Add(Shift(b), 1), n + 1)
    ensures Half(Shift(b)) == b && b < 0x80
  {
    FitsIsBound(b, n);
    assert Half(Shift(b)) == b && Half(Add(Shift(b), 1)) == b;
  }

  lemma FitsIsBound(b: bv8, n: nat)
    requires Fits(b, n) && n < 8
    ensures b < 0x80
  {
    FitsMore(b, n, 7);
    assert Half(Half(Half(Half(Half(Half(Half(b))))))) == 0;
    var b1 := Half(b);
    var b2 := Half(b1);
    var b3 := Half(b2);
    var b4 := Half(b3);
    var b5 := Half(b4);
    assert Fits(b4, 3) && Fits(b5, 2);
  }

  lemma {:induction false} FitsMore(b: bv8, n: nat, m: nat)
    requires Fits(b, n) && n <= m
    ensures Fits(b, m)
    decreases m
  {
    hide Half;
    if n > 0 {
      FitsMore(Half(b), n - 1, m - 1);
    } else if m > 0 {
      HalfZero();
      FitsMore(0, 0, m - 1);
    }
  }

  lemma HalfZero()
    ensures Half(0) == 0
  {}

  // ----- reducing the carry-less product leaves exactly what the peasant loop computes

  lemma DoubleWide(a: bv8)
    ensures Double(Wide(a)) == Xor(Wide(TimesX(a)), if a & 0x80 == 0 then 0 else MODULUS)
  {}

  lemma CarrylessShift(a: bv16, q: bv8)
    requires Fits(q, 7)
    ensures Carryless(a, Shift(q), 8) == Double(Carryless(a, q, 8))
  {
    FitsShift(q, 7);
    assert PickWide(Shift(q), a) == 0;
    assert Carryless(a, Shift(q), 8) == Carryless(Double(a), q, 7) by {
      XorZero(Carryless(Double(a), q, 7));
      hide Xor, Double, PickWide, Half, Shift;
    }
    CarrylessFits(Double(a), q, 7);
    CarrylessDouble(a, q, 8);
    hide *;
  }

  lemma CarrylessOne(a: bv16)
    ensures Carryless(a, 1, 8) == a && Carryless(a, 0, 8) == 0
  {
    assert Half(1) == 0 && PickWide(1, a) == a;
    CarrylessZero(a, 8);
    CarrylessZero(Double(a), 7);
    XorZero(a);
    hide Xor, Double, PickWide, Half;
  }

  /** One round: doubling keeps a congruence modulo MODULUS, with the next quotient. */
  lemma DoubleCongruent(w: bv16, a: bv8, q: bv8, n: nat) returns (q': bv8)
    requires n < 8 && Fits(q, n)
    requires w == Xor(Wide(a), Carryless(MODULUS, q, 8))
    ensures Fits(q', n + 1)
    ensures Double(w) == Xor(Wide(TimesX(a)), Carryless(MODULUS, q', 8))
  {
    var carry: bv8 := if a & 0x80 == 0 then 0 else 1;
    q' := Add(Shift(q), carry);
    FitsShift(q, n);
    AddLaws(Shift(q), 0, 0);
    FitsMore(q, n, 7);
    DoubleAdd(Wide(a), Carryless(MODULUS, q, 8));
    DoubleWide(a);
    CarrylessShift(MODULUS, q);
    CarrylessAddRight(MODULUS, Shift(q), carry, 8);
    CarrylessOne(MODULUS);
    var m := Carryless(MODULUS, carry, 8);
    var s := Carryless(MODULUS, Shift(q), 8);
    assert m == if a & 0x80 == 0 then 0 else MODULUS;
    hide *;
    XorAssoc(Wide(TimesX(a)), m, s);
    XorComm(m, s);
  }

  lemma PickCarryless(b: bv8, q: bv8)
    ensures PickWide(b, Carryless(MODULUS, q, 8)) == Carryless(MODULUS, Pick(b, q), 8)
  {
    hide Carryless;
    CarrylessOne(MODULUS);
  }

  lemma PickCongruent(w: bv16, a: bv8, q: bv8, b: bv8)
    requires w == Xor(Wide(a), Carryless(MODULUS, q, 8))
    ensures PickWide(b, w) == Xor(Wide(Pick(b, a)), Carryless(MODULUS, Pick(b, q), 8))
  {
    hide *;
    PickAdd(b, Wide(a), Carryless(MODULUS, q, 8));
    PickOfWide(b, a);
    PickCarryless(b, q);
  }

  lemma {:induction false} PeasantCongruent(w: bv16, a: bv8, q: bv8, b: bv8, n: nat) returns (r: bv8)
    requires n <= 8 && Fits(q, 8 - n)
    requires w == Xor(Wide(a), Carryless(MODULUS, q, 8))
    ensures Carryless(w, b, n) == Xor(Wide(Peasant(a, b, n)), Carryless(MODULUS, r, 8))
    decreases n
  {
    hide Xor, Double, PickWide, Half, Wide, Add, TimesX, Pick;
    if n == 0 {
      r := 0;
      CarrylessOne(MODULUS);
      WideZero();
      XorZero(0);
    } else {
      var q' := DoubleCongruent(w, a, q, 8 - n);
      var r' := PeasantCongruent(Double(w), TimesX(a), q', Half(b), n - 1);
      r := Add(Pick(b, q), r');
      var rest := Peasant(TimesX(a), Half(b), n - 1);
      assert Carryless(w, b, n) == Xor(PickWide(b, w), Carryless(Double(w), Half(b), n - 1));
      assert Peasant(a, b, n) == Add(Pick(b, a), rest);
      hide *;
      PickCongruent(w, a, q, b);
      CarrylessAddRight(MODULUS, Pick(b, q), r', 8);
      WideAdd(Pick(b, a), rest);
      XorSwap(Wide(Pick(b, a)), Carryless(MODULUS, Pick(b, q), 8), Wide(rest), Carryless(MODULUS, r', 8));
    }
  }

  lemma WideZero()
    ensures Wide(0) == 0
  {}

  /** r is the remainder of p modulo the AES polynomial: p = r + q * MODULUS for some quotient q. */
  ghost predicate IsRemainder(p: bv16, r: bv8) {
    exists q: bv8 :: p == Xor(Wide(r), Carryless(MODULUS, q, 8))
  }

  lemma MulIsRemainder(a: bv8, b: bv8)
    ensures IsRemainder(Carryless(Wide(a), b, 8), Mul(a, b))
  {
    CarrylessOne(MODULUS);
    XorZero(Wide(a));
    var r := PeasantCongruent(Wide(a), a, 0, b, 8);
  }

  // ----- remainders are unique: a non-zero multiple of MODULUS has degree at least 8

  function BitWide(q: bv8, mask: bv8, v: bv16): bv16 { if q & mask != 0 then v else 0 }

  function Multiple(q: bv8): bv16 {
    Xor(BitWide(q, 0x01, 0x011B), Xor(BitWide(q, 0x02, 0x0236), Xor(BitWide(q, 0x04, 0x046C), Xor(BitWide(q, 0x08, 0x08D8),
    Xor(BitWide(q, 0x10, 0x11B0), Xor(BitWide(q, 0x20, 0x2360), Xor(BitWide(q, 0x40, 0x46C0), BitWide(q, 0x80, 0x8D80))))))))
  }

  lemma PickWideHalved(q: bv8, v: bv16)
    ensures PickWide(q, v) == BitWide(q, 0x01, v)
    ensures PickWide(Half(q), v) == BitWide(q, 0x02, v)
    ensures PickWide(Half(Half(q)), v) == BitWide(q, 0x04, v)
    ensures PickWide(Half(Half(Half(q))), v) == BitWide(q, 0x08, v)
    ensures PickWide(Half(Half(Half(Half(q)))), v) == BitWide(q, 0x10, v)
    ensures PickWide(Half(Half(Half(Half(Half(q))))), v) == BitWide(q, 0x20, v)
    ensures PickWide(Half(Half(Half(Half(Half(Half(q)))))), v) == BitWide(q, 0x40, v)
    ensures PickWide(Half(Half(Half(Half(Half(Half(Half(q))))))), v) == BitWide(q, 0x80, v)
  {}

  lemma Doublings()
    ensures Double(0x011B) == 0x0236 && Double(0x0236) == 0x046C && Double(0x046C) == 0x08D8
    ensures Double(0x08D8) == 0x11B0 && Double(0x11B0) == 0x2360 && Double(0x2360) == 0x46C0 && Double(0x46C0) == 0x8D80
  {}

  lemma CarrylessStep(a: bv16, b: bv8, n: nat)
    ensures Carryless(a, b, n + 1) == Xor(PickWide(b, a), Carryless(Double(a), Half(b), n))
    ensures Carryless(a, b, 1) == PickWide(b, a)
  {
    XorZero(PickWide(b, a));
    hide Xor, PickWide, Double, Half;
  }

  lemma CarrylessIsMultiple(q: bv8)
    ensures Carryless(MODULUS, q, 8) == Multiple(q)
  {
    hide Xor, Double, PickWide, BitWide, Half, Carryless;
    Doublings();
    var q1 := Half(q);
    var q2 := Half(q1);
    var q3 := Half(q2);
    var q4 := Half(q3);
    var q5 := Half(q4);
    var q6 := Half(q5);
    var q7 := Half(q6);
    CarrylessStep(0x011B, q, 7);
    CarrylessStep(0x0236, q1, 6);
    CarrylessStep(0x046C, q2, 5);
    CarrylessStep(0x08D8, q3, 4);
    CarrylessStep(0x11B0, q4, 3);
    CarrylessStep(0x2360, q5, 2);
    CarrylessStep(0x46C0, q6, 1);
    CarrylessStep(0x8D80, q7, 0);
    PickWideHalved(q, 0x011B);
    PickWideHalved(q, 0x0236);
    PickWideHalved(q, 0x046C);
    PickWideHalved(q, 0x08D8);
    PickWideHalved(q, 0x11B0);
    PickWideHalved(q, 0x2360);
    PickWideHalved(q, 0x46C0);
    PickWideHalved(q, 0x8D80);
  }

  lemma MultipleIsHigh(q: bv8)
    requires Multiple(q) < 0x100
    ensures q == 0
  {}

  lemma WideBound(a: bv8, b: bv8)
    ensures Wide(a) < 0x100
    ensures Wide(a) == Wide(b) ==> a == b
  {}

  lemma XorCancel(r: bv16, s: bv16, m: bv16, n: bv16)
    requires Xor(r, m) == Xor(s, n)
    ensures Xor(r, s) == Xor(m, n)
  {
    hide *;
    XorSwap(r, m, s, n);
    XorSelf(Xor(r, m), Xor(s, n));
    XorSelf(Xor(r, s), Xor(m, n));
  }

  lemma XorSelf(a: bv16, b: bv16)
    ensures Xor(a, b) == 0 <==> a == b
  {
    hide *;
    XorSame(b);
    XorAssoc(a, b, b);
    XorZero(a);
    XorZero(b);
  }

  /** The peasant loop computes the remainder and nothing else: the product in GF(2)[X] modulo the
      AES polynomial has Mul(a, b) as its one representative of degree below 8. */
  lemma MulMeaning(a: bv8, b: bv8, r: bv8)
    ensures IsRemainder(Carryless(Wide(a), b, 8), r) <==> r == Mul(a, b)
  {
    var p := Carryless(Wide(a), b, 8);
    MulIsRemainder(a, b);
    if IsRemainder(p, r) {
      var m := Mul(a, b);
      var q: bv8 :| p == Xor(Wide(r), Carryless(MODULUS, q, 8));
      var q': bv8 :| p == Xor(Wide(m), Carryless(MODULUS, q', 8));
      hide Xor, Wide, Carryless, Mul;
      XorCancel(Wide(r), Wide(m), Carryless(MODULUS, q, 8), Carryless(MODULUS, q', 8));
      CarrylessAddRight(MODULUS, q, q', 8);
      WideAdd(r, m);
      WideBound(Add(r, m), 0);
      CarrylessIsMultiple(Add(q, q'));
      MultipleIsHigh(Add(q, q'));
      CarrylessOne(MODULUS);
      AddLaws(r, m, 0);
      WideBound(Add(r, m), 0);
      WideZero();
    }
  }
}
