/** Arithmetic in GF(256) = GF(2)[X] / (X^8 + X^4 + X^3 + X + 1), the field of section 4.2 of
    FIPS 197. `Mul` is the meaning of the shift-and-reduce loop, `Reduce(CarrylessProduct(a, b, 8))`
    the textbook meaning of a product; the field laws are derived here, none is assumed. */
module GF256 {

  function Add(a: bv8, b: bv8): bv8 { a ^ b }

  /** Multiplication by X: shift, then subtract the modulus when the degree reached 8. */
  function TimesX(a: bv8): bv8 { Add(Shift(a), Carry(a)) }

  function Shift(a: bv8): bv8 { a << 1 }

  function Carry(a: bv8): bv8 { if a & 0x80 == 0 then 0 else 0x1B }

  function Pick(b: bv8, a: bv8): bv8 { if b & 1 == 1 then a else 0 }

  function Half(b: bv8): bv8 { b >> 1 }

  /** What the last n rounds of the peasant loop add to its result. */
  function Peasant(a: bv8, b: bv8, n: nat): bv8
    decreases n
  {
    if n == 0 then 0 else Add(Pick(b, a), Peasant(TimesX(a), Half(b), n - 1))
  }

  function Mul(a: bv8, b: bv8): bv8 { Peasant(a, b, 8) }

  function Pow(a: bv8, n: nat): bv8 {
    if n == 0 then 1 else Mul(a, Pow(a, n - 1))
  }

  function Inv(a: bv8): bv8 { Pow(a, 254) }

  // ----- addition

  lemma AddLaws(a: bv8, b: bv8, c: bv8)
    ensures Add(a, b) == Add(b, a)
    ensures Add(Add(a, b), c) == Add(a, Add(b, c))
    ensures Add(a, 0) == a && Add(0, a) == a && Add(a, a) == 0
    ensures Add(a, b) == 0 <==> a == b
  {}

  lemma AddSwap(p: bv8, q: bv8, r: bv8, s: bv8)
    ensures Add(Add(p, q), Add(r, s)) == Add(Add(p, r), Add(q, s))
  {
    hide *;
    AddLaws(p, q, Add(r, s));
    AddLaws(q, r, s);
    AddLaws(r, q, s);
    AddLaws(p, r, Add(q, s));
  }

  lemma AddCancel(a: bv8, b: bv8)
    ensures Add(a, Add(a, b)) == b && Add(Add(b, a), a) == b
  {}

  // ----- the peasant loop is bilinear

  lemma TimesXAdditive(a: bv8, b: bv8)
    ensures TimesX(Add(a, b)) == Add(TimesX(a), TimesX(b))
  {
    ShiftAdditive(a, b);
    CarryAdditive(a, b);
    AddSwap(Shift(a), Shift(b), Carry(a), Carry(b));
  }

  lemma ShiftAdditive(a: bv8, b: bv8)
    ensures Shift(Add(a, b)) == Add(Shift(a), Shift(b))
  {}

  lemma CarryAdditive(a: bv8, b: bv8)
    ensures Carry(Add(a, b)) == Add(Carry(a), Carry(b))
  {}

  lemma PickAdditive(b: bv8, c: bv8, a: bv8, d: bv8)
    ensures Pick(Add(b, c), a) == Add(Pick(b, a), Pick(c, a))
    ensures Pick(b, Add(a, d)) == Add(Pick(b, a), Pick(b, d))
    ensures Pick(b, TimesX(a)) == TimesX(Pick(b, a))
  {}

  lemma HalfAdditive(b: bv8, c: bv8)
    ensures Half(Add(b, c)) == Add(Half(b), Half(c))
  {}

  lemma {:induction false} PeasantAddRight(a: bv8, b: bv8, c: bv8, n: nat)
    ensures Peasant(a, Add(b, c), n) == Add(Peasant(a, b, n), Peasant(a, c, n))
    decreases n
  {
    if n > 0 {
      PickAdditive(b, c, a, a);
      HalfAdditive(b, c);
      var p, q := Peasant(TimesX(a), Half(b), n - 1), Peasant(TimesX(a), Half(c), n - 1);
      PeasantAddRight(TimesX(a), Half(b), Half(c), n - 1);
      AddSwap(Pick(b, a), Pick(c, a), p, q);
    }
  }

  lemma {:induction false} PeasantAddLeft(a: bv8, d: bv8, b: bv8, n: nat)
    ensures Peasant(Add(a, d), b, n) == Add(Peasant(a, b, n), Peasant(d, b, n))
    decreases n
  {
    if n > 0 {
      PickAdditive(b, b, a, d);
      TimesXAdditive(a, d);
      var p, q := Peasant(TimesX(a), Half(b), n - 1), Peasant(TimesX(d), Half(b), n - 1);
      PeasantAddLeft(TimesX(a), TimesX(d), Half(b), n - 1);
      AddSwap(Pick(b, a), Pick(b, d), p, q);
    }
  }

  lemma {:induction false} PeasantTimesX(a: bv8, b: bv8, n: nat)
    ensures Peasant(TimesX(a), b, n) == TimesX(Peasant(a, b, n))
    decreases n
  {
    if n > 0 {
      PickAdditive(b, b, a, a);
      PeasantTimesX(TimesX(a), Half(b), n - 1);
      TimesXAdditive(Pick(b, a), Peasant(TimesX(a), Half(b), n - 1));
    }
  }

  lemma MulAddRight(a: bv8, b: bv8, c: bv8)
    ensures Mul(a, Add(b, c)) == Add(Mul(a, b), Mul(a, c))
  {
    PeasantAddRight(a, b, c, 8);
  }

  lemma MulAddLeft(a: bv8, b: bv8, c: bv8)
    ensures Mul(Add(a, b), c) == Add(Mul(a, c), Mul(b, c))
  {
    PeasantAddLeft(a, b, c, 8);
  }

  // ----- additive maps agree everywhere when they agree on the eight basis elements

  function TimesXPow(a: bv8, k: nat): bv8 {
    if k == 0 then a else TimesX(TimesXPow(a, k - 1))
  }

  /** The monomial X^k. */
  function Basis(k: nat): bv8 { TimesXPow(1, k) }

  ghost predicate Additive(f: bv8 -> bv8) {
    forall a: bv8, b: bv8 :: f(Add(a, b)) == Add(f(a), f(b))
  }

  ghost predicate AgreeOnBasis(f: bv8 -> bv8, g: bv8 -> bv8) {
    forall k | 0 <= k < 8 :: f(Basis(k)) == g(Basis(k))
  }

  lemma AdditiveAtZero(f: bv8 -> bv8)
    requires Additive(f)
    ensures f(0) == 0
  {
    AddLaws(0, 0, 0);
    assert f(Add(0, 0)) == Add(f(0), f(0));
    AddLaws(f(0), f(0), 0);
  }

  lemma BasisValues()
    ensures Basis(0) == 0x01 && Basis(1) == 0x02 && Basis(2) == 0x04 && Basis(3) == 0x08
    ensures Basis(4) == 0x10 && Basis(5) == 0x20 && Basis(6) == 0x40 && Basis(7) == 0x80
  {}

  /** x without its bits k and above. */
  function Low(x: bv8, k: nat): bv8 {
    x & (if k == 0 then 0x00 else if k == 1 then 0x01 else if k == 2 then 0x03 else if k == 3 then 0x07
         else if k == 4 then 0x0F else if k == 5 then 0x1F else if k == 6 then 0x3F else if k == 7 then 0x7F else 0xFF)
  }

  lemma LowStep(x: bv8, k: nat)
    requires k < 8
    ensures Low(x, k + 1) == Low(x, k) || Low(x, k + 1) == Add(Low(x, k), Basis(k))
    ensures Low(x, 0) == 0 && Low(x, 8) == x
  {
    BasisValues();
    hide Basis;
  }

  lemma {:induction false} AgreeBelow(f: bv8 -> bv8, g: bv8 -> bv8, x: bv8, k: nat)
    requires Additive(f) && Additive(g) && AgreeOnBasis(f, g) && k <= 8
    ensures f(Low(x, k)) == g(Low(x, k))
    decreases k
  {
    hide *;
    if k == 0 {
      AdditiveAtZero(f);
      AdditiveAtZero(g);
      LowStep(x, 0);
    } else {
      AgreeBelow(f, g, x, k - 1);
      AgreeAt(f, g, k - 1);
      AgreeOnSum(f, g, Low(x, k - 1), Basis(k - 1));
      LowStep(x, k - 1);
    }
  }

  lemma AgreeAt(f: bv8 -> bv8, g: bv8 -> bv8, k: nat)
    requires AgreeOnBasis(f, g) && k < 8
    ensures f(Basis(k)) == g(Basis(k))
  {
    hide Basis;
  }

  lemma AgreeOnSum(f: bv8 -> bv8, g: bv8 -> bv8, a: bv8, b: bv8)
    requires Additive(f) && Additive(g) && f(a) == g(a) && f(b) == g(b)
    ensures f(Add(a, b)) == g(Add(a, b))
  {
    hide Add;
  }

  lemma AdditiveMapsAgree(f: bv8 -> bv8, g: bv8 -> bv8, x: bv8)
    requires Additive(f) && Additive(g) && AgreeOnBasis(f, g)
    ensures f(x) == g(x)
  {
    AgreeBelow(f, g, x, 8);
    LowStep(x, 7);
  }

  // ----- one, commutativity, associativity

  lemma {:induction false} PeasantZero(a: bv8, n: nat)
    ensures Peasant(a, 0, n) == 0
    decreases n
  {
    if n > 0 {
      PeasantZero(TimesX(a), n - 1);
      assert Half(0) == 0 && Pick(0, a) == 0;
      AddLaws(0, 0, 0);
    }
  }

  lemma BasisBits(k: nat, a: bv8)
    requires k < 8
    ensures Pick(Basis(k), a) == if k == 0 then a else 0
    ensures Half(Basis(k)) == if k == 0 then 0 else Basis(k - 1)
  {
    BasisValues();
  }

  lemma {:induction false} TimesXPowShift(a: bv8, k: nat)
    ensures TimesXPow(TimesX(a), k) == TimesX(TimesXPow(a, k))
  {
    if k > 0 { TimesXPowShift(a, k - 1); }
  }

  lemma {:induction false} PeasantAtBasis(a: bv8, k: nat, n: nat)
    requires k < 8 && k < n
    ensures Peasant(a, Basis(k), n) == TimesXPow(a, k)
    decreases n
  {
    BasisBits(k, a);
    AddLaws(a, TimesXPow(a, k), 0);
    if k == 0 {
      PeasantZero(TimesX(a), n - 1);
    } else {
      PeasantAtBasis(TimesX(a), k - 1, n - 1);
      TimesXPowShift(a, k - 1);
    }
  }

  lemma MulAtBasis(a: bv8, k: nat)
    requires k < 8
    ensures Mul(a, Basis(k)) == TimesXPow(a, k)
  {
    PeasantAtBasis(a, k, 8);
  }

  /** The map b -> a * b. */
  function MulBy(a: bv8): bv8 -> bv8 { b => Mul(a, b) }

  lemma MulByAdditive(a: bv8)
    ensures Additive(MulBy(a))
  {
    hide Add, Mul;
    forall b: bv8, c: bv8 ensures MulBy(a)(Add(b, c)) == Add(MulBy(a)(b), MulBy(a)(c)) {
      MulAddRight(a, b, c);
    }
  }

  function Identity(): bv8 -> bv8 { b => b }

  lemma MulByOneOnBasis()
    ensures AgreeOnBasis(MulBy(1), Identity())
  {
    hide Mul, TimesXPow;
    forall k | 0 <= k < 8 ensures MulBy(1)(Basis(k)) == Identity()(Basis(k)) {
      MulAtBasis(1, k);
    }
  }

  lemma MulOneLeft(a: bv8)
    ensures Mul(1, a) == a
  {
    MulByAdditive(1);
    MulByOneOnBasis();
    AdditiveMapsAgree(MulBy(1), Identity(), a);
    hide Mul, Additive, AgreeOnBasis;
  }

  lemma {:induction false} MulBasisLeft(k: nat, a: bv8)
    ensures Mul(Basis(k), a) == TimesXPow(a, k)
  {
    if k == 0 {
      MulOneLeft(a);
    } else {
      MulBasisLeft(k - 1, a);
      PeasantTimesX(Basis(k - 1), a, 8);
    }
  }

  /** The map b -> b * a. */
  function ByMul(a: bv8): bv8 -> bv8 { b => Mul(b, a) }

  lemma ByMulAdditive(a: bv8)
    ensures Additive(ByMul(a))
  {
    hide Add, Mul;
    forall b: bv8, c: bv8 ensures ByMul(a)(Add(b, c)) == Add(ByMul(a)(b), ByMul(a)(c)) {
      MulAddLeft(b, c, a);
    }
  }

  lemma CommOnBasis(a: bv8)
    ensures AgreeOnBasis(MulBy(a), ByMul(a))
  {
    hide Mul, TimesXPow, Basis;
    forall k | 0 <= k < 8 ensures MulBy(a)(Basis(k)) == ByMul(a)(Basis(k)) {
      MulAtBasis(a, k);
      MulBasisLeft(k, a);
    }
  }

  lemma MulComm(a: bv8, b: bv8)
    ensures Mul(a, b) == Mul(b, a)
  {
    MulByAdditive(a);
    ByMulAdditive(a);
    CommOnBasis(a);
    AdditiveMapsAgree(MulBy(a), ByMul(a), b);
    hide Mul, Additive, AgreeOnBasis;
  }

  lemma MulTimesXRight(a: bv8, b: bv8)
    ensures Mul(a, TimesX(b)) == TimesX(Mul(a, b))
  {
    PeasantTimesX(b, a, 8);
    MulComm(a, TimesX(b));
    MulComm(a, b);
    hide TimesX, Peasant;
  }

  lemma {:induction false} MulTimesXPowRight(a: bv8, b: bv8, k: nat)
    ensures Mul(a, TimesXPow(b, k)) == TimesXPow(Mul(a, b), k)
  {
    hide Mul, TimesX;
    if k > 0 {
      MulTimesXPowRight(a, b, k - 1);
      MulTimesXRight(a, TimesXPow(b, k - 1));
    }
  }

  /** The map c -> a * (b * c). */
  function MulByMulBy(a: bv8, b: bv8): bv8 -> bv8 { c => Mul(a, Mul(b, c)) }

  lemma MulByMulByAdditive(a: bv8, b: bv8)
    ensures Additive(MulByMulBy(a, b))
  {
    hide Add, Mul;
    var f := MulByMulBy(a, b);
    forall c: bv8, d: bv8 ensures f(Add(c, d)) == Add(f(c), f(d)) {
      MulAddRight(b, c, d);
      MulAddRight(a, Mul(b, c), Mul(b, d));
    }
  }

  lemma AssocOnBasis(a: bv8, b: bv8)
    ensures AgreeOnBasis(MulBy(Mul(a, b)), MulByMulBy(a, b))
  {
    hide Mul, TimesXPow, Basis;
    forall k | 0 <= k < 8 ensures MulBy(Mul(a, b))(Basis(k)) == MulByMulBy(a, b)(Basis(k)) {
      MulAtBasis(Mul(a, b), k);
      MulAtBasis(b, k);
      MulTimesXPowRight(a, b, k);
    }
  }

  lemma MulAssoc(a: bv8, b: bv8, c: bv8)
    ensures Mul(Mul(a, b), c) == Mul(a, Mul(b, c))
  {
    MulByAdditive(Mul(a, b));
    MulByMulByAdditive(a, b);
    AssocOnBasis(a, b);
    AdditiveMapsAgree(MulBy(Mul(a, b)), MulByMulBy(a, b), c);
    hide Mul, Additive, AgreeOnBasis;
  }

  lemma MulOneZero(a: bv8)
    ensures Mul(a, 1) == a && Mul(1, a) == a && Mul(a, 0) == 0 && Mul(0, a) == 0
  {
    MulOneLeft(a);
    MulComm(a, 1);
    PeasantZero(a, 8);
    MulComm(a, 0);
  }

  // ----- powers and the inverse: squaring is additive, and squaring eight times is the identity

  lemma {:induction false} PowAdd(a: bv8, m: nat, n: nat)
    ensures Pow(a, m + n) == Mul(Pow(a, m), Pow(a, n))
  {
    hide Mul;
    if m == 0 {
      MulOneZero(Pow(a, n));
    } else {
      PowAdd(a, m - 1, n);
      MulAssoc(a, Pow(a, m - 1), Pow(a, n));
    }
  }

  function Square(a: bv8): bv8 { Mul(a, a) }

  lemma SquareAdditive(a: bv8, b: bv8)
    ensures Square(Add(a, b)) == Add(Square(a), Square(b))
  {
    hide Add, Mul;
    MulAddLeft(a, b, Add(a, b));
    MulAddRight(a, a, b);
    MulAddRight(b, a, b);
    MulComm(a, b);
    var aa, ab, bb := Mul(a, a), Mul(a, b), Mul(b, b);
    AddLaws(aa, ab, Add(ab, bb));
    AddCancel(ab, bb);
  }

  function Bit(a: bv8, mask: bv8, v: bv8): bv8 { if a & mask != 0 then v else 0 }

  lemma BitAdditive(a: bv8, b: bv8, mask: bv8, v: bv8)
    requires mask in {0x01, 0x02, 0x04, 0x08, 0x10, 0x20, 0x40, 0x80}
    ensures Bit(Add(a, b), mask, v) == Add(Bit(a, mask, v), Bit(b, mask, v))
  {
    var m, n := a & mask, b & mask;
    assert (m == 0 || m == mask) && (n == 0 || n == mask);
    assert Add(a, b) & mask == m ^ n;
  }

  function LowSquares(a: bv8): bv8 {
    Add(Add(Bit(a, 0x01, 0x01), Bit(a, 0x02, 0x04)), Add(Bit(a, 0x04, 0x10), Bit(a, 0x08, 0x40)))
  }

  function HighSquares(a: bv8): bv8 {
    Add(Add(Bit(a, 0x10, 0x1B), Bit(a, 0x20, 0x6C)), Add(Bit(a, 0x40, 0xAB), Bit(a, 0x80, 0x9A)))
  }

  /** Squaring as a table over the bits of its argument. */
  function SquareTable(a: bv8): bv8 { Add(LowSquares(a), HighSquares(a)) }

  lemma SwapTwice(p: bv8, q: bv8, r: bv8, s: bv8, p': bv8, q': bv8, r': bv8, s': bv8)
    ensures Add(Add(Add(p, p'), Add(q, q')), Add(Add(r, r'), Add(s, s'))) ==
            Add(Add(Add(p, q), Add(r, s)), Add(Add(p', q'), Add(r', s')))
  {
    hide *;
    AddSwap(p, p', q, q');
    AddSwap(r, r', s, s');
    AddSwap(Add(p, q), Add(p', q'), Add(r, s), Add(r', s'));
  }

  lemma SquareTableAdditive(a: bv8, b: bv8)
    ensures SquareTable(Add(a, b)) == Add(SquareTable(a), SquareTable(b))
  {
    hide Add, Bit;
    forall m: bv8, v: bv8 | m in {0x01, 0x02, 0x04, 0x08, 0x10, 0x20, 0x40, 0x80}
      ensures Bit(Add(a, b), m, v) == Add(Bit(a, m, v), Bit(b, m, v))
    {
      BitAdditive(a, b, m, v);
    }
    SwapTwice(Bit(a, 0x01, 0x01), Bit(a, 0x02, 0x04), Bit(a, 0x04, 0x10), Bit(a, 0x08, 0x40),
              Bit(b, 0x01, 0x01), Bit(b, 0x02, 0x04), Bit(b, 0x04, 0x10), Bit(b, 0x08, 0x40));
    SwapTwice(Bit(a, 0x10, 0x1B), Bit(a, 0x20, 0x6C), Bit(a, 0x40, 0xAB), Bit(a, 0x80, 0x9A),
              Bit(b, 0x10, 0x1B), Bit(b, 0x20, 0x6C), Bit(b, 0x40, 0xAB), Bit(b, 0x80, 0x9A));
    AddSwap(LowSquares(a), LowSquares(b), HighSquares(a), HighSquares(b));
  }

  lemma {:induction false} TimesXPowAdd(a: bv8, m: nat, n: nat)
    ensures TimesXPow(TimesXPow(a, m), n) == TimesXPow(a, m + n)
  {
    if n > 0 { TimesXPowAdd(a, m, n - 1); }
  }

  lemma EvenPowersOfX()
    ensures TimesXPow(1, 8) == 0x1B && TimesXPow(1, 10) == 0x6C
    ensures TimesXPow(1, 12) == 0xAB && TimesXPow(1, 14) == 0x9A
  {
    BasisValues();
    assert TimesXPow(1, 8) == 0x1B;
    assert TimesXPow(1, 10) == 0x6C;
    assert TimesXPow(1, 12) == 0xAB;
  }

  lemma SquareTableValues()
    ensures SquareTable(0x01) == 0x01 && SquareTable(0x02) == 0x04
    ensures SquareTable(0x04) == 0x10 && SquareTable(0x08) == 0x40
    ensures SquareTable(0x10) == 0x1B && SquareTable(0x20) == 0x6C
    ensures SquareTable(0x40) == 0xAB && SquareTable(0x80) == 0x9A
  {}

  lemma SquareTableAtBasis(k: nat)
    requires k < 8
    ensures SquareTable(Basis(k)) == TimesXPow(1, k + k)
  {
    BasisValues();
    EvenPowersOfX();
    SquareTableValues();
    hide SquareTable, TimesXPow;
  }

  function Squaring(): bv8 -> bv8 { a => Square(a) }

  function Tabulated(): bv8 -> bv8 { a => SquareTable(a) }

  lemma SquaringsAdditive()
    ensures Additive(Squaring()) && Additive(Tabulated())
  {
    hide Add, Square, SquareTable;
    forall b: bv8, c: bv8
      ensures Squaring()(Add(b, c)) == Add(Squaring()(b), Squaring()(c))
      ensures Tabulated()(Add(b, c)) == Add(Tabulated()(b), Tabulated()(c))
    {
      SquareAdditive(b, c);
      SquareTableAdditive(b, c);
    }
  }

  lemma SquareAtBasis(k: nat)
    requires k < 8
    ensures Square(Basis(k)) == TimesXPow(1, k + k)
  {
    MulBasisLeft(k, Basis(k));
    TimesXPowAdd(1, k, k);
    hide Mul, TimesX;
  }

  lemma SquaringsOnBasis()
    ensures AgreeOnBasis(Squaring(), Tabulated())
  {
    hide Square, SquareTable, Basis, TimesXPow;
    forall k | 0 <= k < 8 ensures Squaring()(Basis(k)) == Tabulated()(Basis(k)) {
      SquareAtBasis(k);
      SquareTableAtBasis(k);
    }
  }

  lemma SquareIsTable(a: bv8)
    ensures Square(a) == SquareTable(a)
  {
    SquaringsAdditive();
    SquaringsOnBasis();
    AdditiveMapsAgree(Squaring(), Tabulated(), a);
    hide Square, SquareTable, Additive, AgreeOnBasis;
  }

  lemma IdempotentIsZeroOrOne(e: bv8)
    requires Square(e) == e
    ensures e == 0 || e == 1
  {
    SquareIsTable(e);
    hide Square;
  }

  function Square4(a: bv8): bv8 { SquareTable(SquareTable(SquareTable(SquareTable(a)))) }

  // Squaring moves the monomials around three orbits of eight bytes.

  lemma OrbitOfX()
    ensures SquareTable(0x02) == 0x04 && SquareTable(0x04) == 0x10 && SquareTable(0x10) == 0x1B && SquareTable(0x1B) == 0x5E
    ensures SquareTable(0x5E) == 0xE4 && SquareTable(0xE4) == 0x4D && SquareTable(0x4D) == 0xFA && SquareTable(0xFA) == 0x02
  {}

  lemma OrbitOfX3()
    ensures SquareTable(0x08) == 0x40 && SquareTable(0x40) == 0xAB && SquareTable(0xAB) == 0xB3 && SquareTable(0xB3) == 0xE8
    ensures SquareTable(0xE8) == 0x1D && SquareTable(0x1D) == 0x4A && SquareTable(0x4A) == 0xEF && SquareTable(0xEF) == 0x08
  {}

  lemma OrbitOfX5()
    ensures SquareTable(0x20) == 0x6C && SquareTable(0x6C) == 0x97 && SquareTable(0x97) == 0x94 && SquareTable(0x94) == 0x91
    ensures SquareTable(0x91) == 0x80 && SquareTable(0x80) == 0x9A && SquareTable(0x9A) == 0xC5 && SquareTable(0xC5) == 0x20
  {}

  lemma Square4TwiceAtBasis(k: nat)
    requires k < 8
    ensures Square4(Square4(Basis(k))) == Basis(k)
  {
    hide SquareTable, TimesXPow;
    BasisValues();
    SquareTableValues();
    OrbitOfX();
    OrbitOfX3();
    OrbitOfX5();
  }

  function Squared8(): bv8 -> bv8 { a => Square4(Square4(a)) }

  lemma Square4Additive(a: bv8, b: bv8)
    ensures Square4(Add(a, b)) == Add(Square4(a), Square4(b))
  {
    hide Add, SquareTable;
    SquareTableAdditive(a, b);
    var a1, b1 := SquareTable(a), SquareTable(b);
    SquareTableAdditive(a1, b1);
    var a2, b2 := SquareTable(a1), SquareTable(b1);
    SquareTableAdditive(a2, b2);
    SquareTableAdditive(SquareTable(a2), SquareTable(b2));
  }

  lemma Squared8Additive()
    ensures Additive(Squared8()) && Additive(Identity())
  {
    hide Add, Square4;
    forall b: bv8, c: bv8 ensures Squared8()(Add(b, c)) == Add(Squared8()(b), Squared8()(c)) {
      Square4Additive(b, c);
      Square4Additive(Square4(b), Square4(c));
    }
  }

  lemma Squared8OnBasis()
    ensures AgreeOnBasis(Squared8(), Identity())
  {
    hide Square4, Basis;
    forall k | 0 <= k < 8 ensures Squared8()(Basis(k)) == Identity()(Basis(k)) {
      Square4TwiceAtBasis(k);
    }
  }

  /** The Frobenius map has order 8: squaring eight times is the identity. */
  lemma SquareEightTimes(a: bv8)
    ensures Square4(Square4(a)) == a
  {
    Squared8Additive();
    Squared8OnBasis();
    AdditiveMapsAgree(Squared8(), Identity(), a);
    hide Square4, Additive, AgreeOnBasis;
  }

  lemma TableOfPow(a: bv8, n: nat)
    ensures SquareTable(Pow(a, n)) == Pow(a, 2 * n)
  {
    SquareIsTable(Pow(a, n));
    PowAdd(a, n, n);
    hide Mul, Pow, SquareTable;
  }

  lemma Square4IsPow(a: bv8, n: nat)
    ensures Square4(Pow(a, n)) == Pow(a, 16 * n)
  {
    hide Mul, Pow, SquareTable;
    TableOfPow(a, n);
    TableOfPow(a, 2 * n);
    TableOfPow(a, 4 * n);
    TableOfPow(a, 8 * n);
  }

  lemma PowOne(a: bv8)
    ensures Pow(a, 1) == a && Pow(a, 0) == 1
  {
    MulOneZero(a);
    hide Mul;
  }

  lemma Pow256(a: bv8)
    ensures Pow(a, 256) == a
  {
    hide *;
    PowOne(a);
    Square4IsPow(a, 1);
    Square4IsPow(a, 16);
    SquareEightTimes(a);
  }

  lemma Pow255(a: bv8)
    requires a != 0
    ensures Pow(a, 255) == 1
  {
    hide Mul, Pow;
    var e := Pow(a, 255);
    Pow256(a);
    PowOne(a);
    PowAdd(a, 255, 255);
    PowAdd(a, 256, 254);
    PowAdd(a, 1, 254);
    IdempotentIsZeroOrOne(e);
    PowAdd(a, 255, 1);
    MulOneZero(a);
  }

  /** The inverse law, and with it: no zero divisors. */
  lemma MulInverse(a: bv8)
    requires a != 0
    ensures Mul(a, Inv(a)) == 1 && Mul(Inv(a), a) == 1
  {
    hide Mul, Pow;
    Pow255(a);
    PowOne(a);
    PowAdd(a, 1, 254);
    MulComm(a, Inv(a));
  }

  lemma NoZeroDivisors(a: bv8, b: bv8)
    ensures Mul(a, b) == 0 <==> a == 0 || b == 0
  {
    hide Mul, Inv;
    MulOneZero(a);
    MulOneZero(b);
    if a != 0 {
      MulInverse(a);
      MulAssoc(Inv(a), a, b);
      MulOneZero(Inv(a));
    }
  }
}
