/** Shamir's Secret Sharing over GF(256): the share format, `split` and `combine`.

    A V2 share is id | "V2" | K | shard, and the shards carry checksum + secret. Every byte position
    of that payload is the constant term of its own polynomial with K - 1 random coefficients; the
    share with id x holds the values of all those polynomials at x. */
module Shamir {
  import opened ByteArrays
  import opened CarrylessProduct
  import opened GF256
  import opened Polynomial
  import opened Wrappers

  datatype Error =
    | ThresholdTooSmall | ThresholdAboveShares | TooManyShares | EntropyFailed
    | TooFewShares | EmptyShare | DuplicateIds | MixedFormats | InconsistentLengths
    | MissingThreshold | InconsistentThresholds | BelowThreshold | IntegrityFailed
    | ZeroInverse

  const MAGIC: Bytes := [0x56, 0x32]
  const CHECKSUM_LEN := 4

  /** The first four bytes of a hash the model knows nothing else about. */
  type Hash = Bytes -> (bv8, bv8, bv8, bv8)

  function Checksum(hash: Hash, secret: Bytes): (c: Bytes)
    ensures |c| == CHECKSUM_LEN
  {
    var (b0, b1, b2, b3) := hash(secret);
    [b0, b1, b2, b3]
  }

  function Payload(hash: Hash, secret: Bytes): (p: Bytes)
    ensures |p| == |secret| + CHECKSUM_LEN
  {
    Checksum(hash, secret) + secret
  }

  // ----- field operations as the source runs them

  function ShiftLeft(a: bv16): bv16 { a << 1 }

  predicate Overflowed(a: bv16) { a & 0x100 != 0 }

  predicate Odd(b: bv8) { b & 1 == 1 }

  predicate IsByte(a: bv16) { a < 0x100 }

  function Low8(a: bv16): bv8
    requires IsByte(a)
  {
    a as bv8
  }

  /** One round on Python integers of up to nine bits agrees with the round on bytes. */
  lemma WideRound(result: bv16, a: bv16, b: bv8)
    requires IsByte(result) && IsByte(a)
    ensures var r := if Odd(b) then Xor(result, a) else result;
            IsByte(r) && Low8(r) == Add(Low8(result), Pick(b, Low8(a)))
    ensures var d := ShiftLeft(a);
            var e := if Overflowed(d) then Xor(d, MODULUS) else d;
            IsByte(e) && Low8(e) == TimesX(Low8(a))
  {}

  method Gf256Mul(a0: bv8, b0: bv8) returns (product: bv8)
    ensures product == Mul(a0, b0)
  {
    hide *;
    var result: bv16 := 0;
    var a: bv16, b := a0 as bv16, b0;
    WideStart(a0, b0);
    for i := 0 to 8
      invariant IsByte(result) && IsByte(a)
      invariant Add(Low8(result), Peasant(Low8(a), b, 8 - i)) == Mul(a0, b0)
    {
      WideRound(result, a, b);
      PeasantRound(Low8(result), Low8(a), b, 8 - i);
      if Odd(b) {
        result := Xor(result, a);
      }
      a := ShiftLeft(a);
      if Overflowed(a) {
        a := Xor(a, MODULUS);
      }
      b := Half(b);
    }
    WideEnd(result, Low8(a), b);
    product := Low8(result);
  }

  lemma WideStart(a: bv8, b: bv8)
    ensures IsByte(0) && Low8(0) == 0 && IsByte(a as bv16) && Low8(a as bv16) == a
    ensures Add(0, Peasant(a, b, 8)) == Mul(a, b)
  {
    AddLaws(Mul(a, b), 0, 0);
    hide Add, Peasant;
  }

  lemma WideEnd(result: bv16, a: bv8, b: bv8)
    requires IsByte(result)
    ensures Add(Low8(result), Peasant(a, b, 0)) == Low8(result)
  {
    AddLaws(Low8(result), 0, 0);
    hide Add;
  }

  lemma PeasantRound(r: bv8, a: bv8, b: bv8, n: nat)
    requires n > 0
    ensures Add(r, Peasant(a, b, n)) == Add(Add(r, Pick(b, a)), Peasant(TimesX(a), Half(b), n - 1))
  {
    hide Add, Pick, TimesX, Half;
    AddLaws(r, Pick(b, a), Peasant(TimesX(a), Half(b), n - 1));
  }

  method Gf256Inv(a: bv8) returns (inverse: Result<bv8, Error>)
    ensures a == 0 ==> inverse == Err(ZeroInverse)
    ensures a != 0 ==> inverse.Ok? && Mul(a, inverse.value) == 1
    ensures a != 0 ==> inverse == Ok(Inv(a))
  {
    hide *;
    if a == 0 {
      return Err(ZeroInverse);
    }
    var result: bv8, base := 1, a;
    ghost var n: nat := 1;
    PowOne(a);
    ExponentStep(0);
    for i := 0 to 7
      invariant n == Exponent(i)
      invariant base == Pow(a, n)
      invariant result == Pow(a, 2 * n - 2)
    {
      PowAdd(a, n, n);
      PowAdd(a, 2 * n - 2, 2 * n);
      ExponentStep(i);
      base := Gf256Mul(base, base);
      result := Gf256Mul(result, base);
      n := 2 * n;
    }
    ExponentStep(7);
    MulInverse(a);
    InvIsPow(a);
    return Ok(result);
  }

  function Exponent(i: nat): (n: nat)
    ensures n > 0
  {
    if i == 0 then 1 else 2 * Exponent(i - 1)
  }

  lemma ExponentStep(i: nat)
    ensures Exponent(0) == 1 && Exponent(i + 1) == 2 * Exponent(i) && Exponent(7) == 128
  {}

  lemma InvIsPow(a: bv8)
    ensures Inv(a) == Pow(a, 254)
  {
    hide Pow;
  }

  // ----- interpolation

  /** The index of the first point at x, or the number of points. */
  function FirstAt(ps: seq<Point>, x: bv8): (k: nat)
    ensures k <= |ps|
    ensures forall i | 0 <= i < k :: ps[i].x != x
    ensures k < |ps| ==> ps[k].x == x
  {
    if ps == [] || ps[0].x == x then 0 else 1 + FirstAt(ps[1..], x)
  }

  /** The value handed out when no denominator is zero. */
  function Interpolated(ps: seq<Point>, x: bv8): bv8 {
    var k := FirstAt(ps, x);
    if k < |ps| then ps[k].y else LagrangeSum(ps, x, |ps|)
  }

  /** Fails exactly when a point before the first one at x shares its x with another point. */
  method LagrangeInterpolate(ps: seq<Point>, x: bv8) returns (value: Result<bv8, Error>)
    ensures value.Err? <==> exists i, j | 0 <= i < FirstAt(ps, x) && 0 <= j < |ps| :: i != j && ps[i].x == ps[j].x
    ensures value.Err? ==> value == Err(ZeroInverse)
    ensures value.Ok? ==> value.value == Interpolated(ps, x)
  {
    hide Add, Mul, Inv, ProductExcept, FirstAt;
    var result: bv8 := 0;
    var xs := Xs(ps);
    for i := 0 to |ps|
      invariant i <= FirstAt(ps, x)
      invariant result == LagrangeSum(ps, x, i)
      invariant forall k, j | 0 <= k < i && 0 <= j < |ps| && k != j :: ps[k].x != ps[j].x
    {
      if ps[i].x == x {
        assert i == FirstAt(ps, x);
        return Ok(ps[i].y);
      }
      var numerator: bv8, denominator: bv8 := 1, 1;
      ProductStart(xs, i, x);
      ProductStart(xs, i, ps[i].x);
      for j := 0 to |ps|
        invariant numerator == ProductExcept(xs, i, x, j)
        invariant denominator == ProductExcept(xs, i, ps[i].x, j)
      {
        ProductStep(xs, i, x, j);
        ProductStep(xs, i, ps[i].x, j);
        if i != j {
          numerator := Gf256Mul(numerator, Add(x, ps[j].x));
          denominator := Gf256Mul(denominator, Add(ps[i].x, ps[j].x));
        }
      }
      ProductNonZero(xs, i, ps[i].x, |ps|);
      assert forall j | 0 <= j < |ps| :: xs[j] == ps[j].x;
      var inverse := Gf256Inv(denominator);
      if inverse.Err? {
        assert i < FirstAt(ps, x) by { FirstAtBeyond(ps, x, i); }
        return Err(ZeroInverse);
      }
      var lagrange := Gf256Mul(numerator, inverse.value);
      var term := Gf256Mul(ps[i].y, lagrange);
      result := Add(result, term);
      FirstAtBeyond(ps, x, i);
    }
    return Ok(result);
  }

  lemma FirstAtBeyond(ps: seq<Point>, x: bv8, i: nat)
    requires i < |ps| && i <= FirstAt(ps, x) && ps[i].x != x
    ensures i < FirstAt(ps, x)
  {}

  lemma ProductStart(xs: seq<bv8>, i: nat, x: bv8)
    ensures ProductExcept(xs, i, x, 0) == 1
  {}

  lemma ProductStep(xs: seq<bv8>, i: nat, x: bv8, j: nat)
    requires j < |xs|
    ensures ProductExcept(xs, i, x, j + 1) ==
            if j == i then ProductExcept(xs, i, x, j) else Mul(ProductExcept(xs, i, x, j), Add(x, xs[j]))
  {
    hide Add, Mul;
  }

  /** With distinct x values interpolation never fails, and points on a polynomial with at most as
      many coefficients as there are points give back its value, on the early exit too. */
  lemma InterpolatedIsEval(ps: seq<Point>, c: Poly, x: bv8)
    requires Distinct(Xs(ps)) && |c| <= |ps| && LiesOn(ps, c)
    ensures Interpolated(ps, x) == Eval(c, x)
  {
    hide Eval, LagrangeSum;
    LagrangeIsEval(ps, c, x);
  }

  // ----- split

  /** The byte os.urandom returns for coefficient j + 1 of position i, or its failure. */
  type Entropy = (nat, nat) -> Option<bv8>

  ghost predicate Supplies(entropy: Entropy, threshold: nat, n: nat) {
    forall i, j | 0 <= i < n && 0 <= j < threshold - 1 :: entropy(i, j).Some?
  }

  function DrawnAt(entropy: Entropy, i: nat, j: nat): bv8 {
    match entropy(i, j)
    case Some(b) => b
    case None => 0
  }

  /** The random coefficients, one row of `threshold - 1` bytes per payload position. */
  function Drawn(entropy: Entropy, threshold: nat, n: nat): (rows: seq<Bytes>)
    requires threshold >= 1
    ensures |rows| == n && forall i | 0 <= i < n :: |rows[i]| == threshold - 1
  {
    seq(n, i requires i >= 0 => seq(threshold - 1, j requires j >= 0 => DrawnAt(entropy, i, j)))
  }

  /** The coefficients are the bytes that arrived, each in its place. */
  lemma DrawnArrived(entropy: Entropy, threshold: nat, n: nat)
    requires threshold >= 1 && Supplies(entropy, threshold, n)
    ensures forall i, j | 0 <= i < n && 0 <= j < threshold - 1 :: entropy(i, j) == Some(Drawn(entropy, threshold, n)[i][j])
  {
    hide Supplies;
    forall i, j | 0 <= i < n && 0 <= j < threshold - 1 ensures entropy(i, j) == Some(Drawn(entropy, threshold, n)[i][j]) {
      Arrives(entropy, threshold, n, i, j);
    }
  }

  lemma Arrives(entropy: Entropy, threshold: nat, n: nat, i: nat, j: nat)
    requires Supplies(entropy, threshold, n) && i < n && j < threshold - 1
    ensures entropy(i, j).Some?
  {}

  function Shard(payload: Bytes, rows: seq<Bytes>, x: bv8): (shard: Bytes)
    requires |rows| == |payload|
    ensures |shard| == |payload|
  {
    seq(|payload|, i requires 0 <= i < |payload| => Eval([payload[i]] + rows[i], x))
  }

  function Share(payload: Bytes, rows: seq<Bytes>, threshold: bv8, id: bv8): Bytes
    requires |rows| == |payload|
  {
    [id] + MAGIC + [threshold] + Shard(payload, rows, id)
  }

  /** All shares of a payload: ids 1 to n, each holding every position's polynomial at its id. */
  function Shares(payload: Bytes, rows: seq<Bytes>, threshold: nat, n: nat): (shares: seq<Bytes>)
    requires |rows| == |payload| && threshold <= n <= 255
    ensures |shares| == n
  {
    seq(n, i requires 0 <= i < n => Share(payload, rows, Byte(threshold), Byte(i + 1)))
  }

  method Horner(coeffs: Bytes, x: bv8) returns (y: bv8)
    ensures y == Eval(coeffs, x)
  {
    hide Add, Mul;
    y := 0;
    for k := |coeffs| downto 0
      invariant y == Eval(coeffs[k..], x)
    {
      var product := Gf256Mul(y, x);
      assert coeffs[k..][1..] == coeffs[k + 1..];
      y := Add(product, coeffs[k]);
    }
    assert coeffs[0..] == coeffs;
  }

  method DrawCoefficients(constant: bv8, entropy: Entropy, i: nat, threshold: nat) returns (coeffs: Result<Bytes, Error>)
    requires threshold >= 2
    ensures coeffs.Err? <==> exists j :: 0 <= j < threshold - 1 && entropy(i, j).None?
    ensures coeffs.Err? ==> coeffs == Err(EntropyFailed)
    ensures coeffs.Ok? ==> coeffs.value == [constant] + seq(threshold - 1, j requires j >= 0 => DrawnAt(entropy, i, j))
    ensures coeffs.Ok? ==>
              && |coeffs.value| == threshold && coeffs.value[0] == constant
              && forall j | 0 <= j < threshold - 1 :: entropy(i, j) == Some(coeffs.value[1 + j])
  {
    var cs := [constant];
    for j := 0 to threshold - 1
      invariant cs == [constant] + seq(j, k requires k >= 0 => DrawnAt(entropy, i, k))
      invariant forall k | 0 <= k < j :: entropy(i, k) == Some(cs[1 + k])
    {
      match entropy(i, j)
      case None =>
        return Err(EntropyFailed);
      case Some(b) =>
        cs := cs + [b];
    }
    return Ok(cs);
  }

  /** One byte per share, turned into one shard per share. */
  method Transpose(rows: seq<Bytes>, shares: nat) returns (transposed: seq<Bytes>)
    requires forall row | row in rows :: |row| == shares
    ensures |transposed| == shares
    ensures forall i | 0 <= i < shares :: transposed[i] == Column(rows, i)
  {
    transposed := seq(shares, _ => []);
    for r := 0 to |rows|
      invariant |transposed| == shares
      invariant forall i | 0 <= i < shares :: transposed[i] == Column(rows[..r], i)
    {
      var row := rows[r];
      assert rows[..r + 1] == rows[..r] + [row];
      for i := 0 to shares
        invariant |transposed| == shares
        invariant forall k | 0 <= k < i :: transposed[k] == Column(rows[..r + 1], k)
        invariant forall k | i <= k < shares :: transposed[k] == Column(rows[..r], k)
      {
        transposed := transposed[i := transposed[i] + [row[i]]];
      }
    }
    assert rows[..|rows|] == rows;
  }

  function Column(rows: seq<Bytes>, i: nat): (column: Bytes)
    requires forall row | row in rows :: i < |row|
    ensures |column| == |rows|
  {
    seq(|rows|, p requires 0 <= p < |rows| => rows[p][i])
  }

  /** The polynomial's values at 1 to `shares`. */
  function Values(coeffs: Poly, shares: nat): (values: Bytes)
    requires shares <= 255
    ensures |values| == shares
  {
    seq(shares, x requires 0 <= x < shares => Eval(coeffs, Byte(x + 1)))
  }

  method EvaluateAtIds(coeffs: Poly, shares: nat) returns (shareBytes: Bytes)
    requires shares <= 255
    ensures shareBytes == Values(coeffs, shares)
  {
    hide Eval, Byte;
    shareBytes := [];
    for x := 1 to shares + 1
      invariant |shareBytes| == x - 1
      invariant forall k | 0 <= k < x - 1 :: shareBytes[k] == Eval(coeffs, Byte(k + 1))
    {
      var y := Horner(coeffs, Byte(x));
      shareBytes := shareBytes + [y];
    }
  }

  /** Row p of the matrix: polynomial p at every id. */
  ghost predicate IsMatrix(matrix: seq<Bytes>, payload: Bytes, rows: seq<Bytes>, shares: nat) {
    && shares <= 255 && |matrix| <= |payload| == |rows|
    && forall p | 0 <= p < |matrix| :: matrix[p] == Values([payload[p]] + rows[p], shares)
  }

  method EvaluateShares(payload: ByteArray, threshold: nat, shares: nat, entropy: Entropy) returns (result: Result<seq<Bytes>, Error>)
    requires 2 <= threshold <= shares <= 255
    ensures Supplies(entropy, threshold, |payload.bytes|) ==>
              result == Ok(Shares(payload.bytes, Drawn(entropy, threshold, |payload.bytes|), threshold, shares))
    ensures !Supplies(entropy, threshold, |payload.bytes|) ==> result == Err(EntropyFailed)
  {
    ghost var drawn := Drawn(entropy, threshold, |payload.bytes|);
    hide Values, Shares;
    var matrix: seq<Bytes> := [];
    for i := 0 to |payload.bytes|
      invariant |matrix| == i && IsMatrix(matrix, payload.bytes, drawn, shares)
      invariant Supplies(entropy, threshold, i)
    {
      var coeffs := DrawCoefficients(payload.bytes[i], entropy, i, threshold);
      if coeffs.Err? {
        return Err(EntropyFailed);
      }
      assert coeffs.value == [payload.bytes[i]] + drawn[i];
      var shareBytes := EvaluateAtIds(coeffs.value, shares);
      matrix := matrix + [shareBytes];
    }
    var transposed := Transpose(matrix, shares);
    MatrixColumns(matrix, payload.bytes, drawn, shares);
    var out := AddHeaders(transposed, threshold, payload.bytes, drawn);
    return Ok(out);
  }

  lemma MatrixColumns(matrix: seq<Bytes>, payload: Bytes, rows: seq<Bytes>, shares: nat)
    requires IsMatrix(matrix, payload, rows, shares) && |matrix| == |payload|
    ensures forall row | row in matrix :: |row| == shares
    ensures forall i | 0 <= i < shares :: Column(matrix, i) == Shard(payload, rows, Byte(i + 1))
  {
    hide Eval, Byte;
  }

  method AddHeaders(transposed: seq<Bytes>, threshold: nat, ghost payload: Bytes, ghost rows: seq<Bytes>)
    returns (out: seq<Bytes>)
    requires threshold <= |transposed| <= 255 && |payload| == |rows|
    requires forall i | 0 <= i < |transposed| :: transposed[i] == Shard(payload, rows, Byte(i + 1))
    ensures out == Shares(payload, rows, threshold, |transposed|)
  {
    hide Shard, Byte;
    out := [];
    for i := 0 to |transposed|
      invariant |out| == i
      invariant forall k | 0 <= k < i :: out[k] == Share(payload, rows, Byte(threshold), Byte(k + 1))
    {
      out := out + [[Byte(i + 1)] + MAGIC + [Byte(threshold)] + transposed[i]];
    }
  }

  /** Whatever the exit, the payload buffer this call filled is erased; the view it was given is not
      in its frame, and the shares are fresh values. */
  method Split(hash: Hash, secret: MemoryView, threshold: int, shares: int, entropy: Entropy)
    returns (result: Result<seq<Bytes>, Error>, payload: ByteArray?)
    requires secret.Valid()
    ensures payload == null <==> threshold < 2 || threshold > shares || shares > 255
    ensures payload != null ==>
              && fresh(payload)
              && |payload.bytes| == secret.length + CHECKSUM_LEN && AllZero(payload.bytes)
    ensures threshold < 2 ==> result == Err(ThresholdTooSmall)
    ensures threshold >= 2 && threshold > shares ==> result == Err(ThresholdAboveShares)
    ensures 2 <= threshold <= shares && shares > 255 ==> result == Err(TooManyShares)
    ensures 2 <= threshold <= shares <= 255 ==>
              var n := secret.length + CHECKSUM_LEN;
              result == if Supplies(entropy, threshold, n)
                        then Ok(Shares(Payload(hash, secret.Content()), Drawn(entropy, threshold, n), threshold, shares))
                        else Err(EntropyFailed)
  {
    payload := null;
    if threshold < 2 {
      result := Err(ThresholdTooSmall);
    } else if threshold > shares {
      result := Err(ThresholdAboveShares);
    } else if shares > 255 {
      result := Err(TooManyShares);
    } else {
      var buffer := new ByteArray([]);
      buffer.Extend(Checksum(hash, secret.Content()));
      buffer.Extend(secret.Content());
      assert buffer.bytes == Payload(hash, secret.Content());
      result := EvaluateShares(buffer, threshold, shares, entropy);
      buffer.Erase();
      payload := buffer;
    }
  }

  // ----- combine

  function Ids(shares: seq<Bytes>): (ids: seq<bv8>)
    requires [] !in shares
    ensures |ids| == |shares|
  {
    seq(|shares|, i requires 0 <= i < |shares| => shares[i][0])
  }

  /** Whether the body behind the id byte starts with the V2 marker. */
  predicate IsV2(share: Bytes) { |share| >= 3 && share[1..3] == MAGIC }

  function PointsAt(shares: seq<Bytes>, p: nat): (ps: seq<Point>)
    requires forall s | s in shares :: p < |s|
    ensures |ps| == |shares|
  {
    seq(|shares|, i requires 0 <= i < |shares| => Point(shares[i][0], shares[i][p]))
  }

  /** The payload the shares determine, when their shards start at index `skip`. */
  function Recovered(shares: seq<Bytes>, skip: nat, length: nat): (payload: Bytes)
    requires forall s | s in shares :: |s| == skip + length
    ensures |payload| == length
  {
    seq(length, pos requires 0 <= pos < length => Interpolated(PointsAt(shares, skip + pos), 0))
  }

  /** Python's payload[:4] and payload[4:], which clip. */
  function Head(payload: Bytes): Bytes {
    if |payload| < CHECKSUM_LEN then payload else payload[..CHECKSUM_LEN]
  }

  function Tail(payload: Bytes): Bytes {
    if |payload| < CHECKSUM_LEN then [] else payload[CHECKSUM_LEN..]
  }

  function Verified(hash: Hash, payload: Bytes): Result<Bytes, Error> {
    if Head(payload) == Checksum(hash, Tail(payload)) then Ok(Tail(payload)) else Err(IntegrityFailed)
  }

  predicate SameLength(shares: seq<Bytes>) {
    forall s | s in shares :: |s| == |shares[0]|
  }

  /** What `combine` answers, check by check in the order it makes them. */
  function Combined(hash: Hash, shares: seq<Bytes>): Result<Bytes, Error> {
    if |shares| < 2 then Err(TooFewShares)
    else if [] in shares then Err(EmptyShare)
    else if !Distinct(Ids(shares)) then Err(DuplicateIds)
    else if (exists s | s in shares :: IsV2(s)) && (exists s | s in shares :: !IsV2(s)) then Err(MixedFormats)
    else if !SameLength(shares) then Err(InconsistentLengths)
    else if !IsV2(shares[0]) then Ok(Recovered(shares, 1, |shares[0]| - 1))
    else if |shares[0]| < 4 then Err(MissingThreshold)
    else if exists s | s in shares :: s[3] != shares[0][3] then Err(InconsistentThresholds)
    else if |shares| < shares[0][3] as int then Err(BelowThreshold)
    else Verified(hash, Recovered(shares, 4, |shares[0]| - 4))
  }

  method HasDistinctIds(shares: seq<Bytes>) returns (distinct: bool)
    requires [] !in shares
    ensures distinct == Distinct(Ids(shares))
  {
    var ids := set s | s in shares :: s[0];
    IdSet(shares);
    DistinctCount(Ids(shares));
    distinct := |ids| == |shares|;
  }

  method FormatFlags(shares: seq<Bytes>) returns (someV2: bool, allV2: bool)
    ensures someV2 == exists s | s in shares :: IsV2(s)
    ensures allV2 == forall s | s in shares :: IsV2(s)
  {
    hide IsV2;
    var v2Flags := seq(|shares|, i requires 0 <= i < |shares| => IsV2(shares[i]));
    someV2, allV2 := true in v2Flags, false !in v2Flags;
    if someV2 {
      var i :| 0 <= i < |v2Flags| && v2Flags[i];
      assert IsV2(shares[i]);
    }
    if !allV2 {
      var i :| 0 <= i < |v2Flags| && !v2Flags[i];
      assert !IsV2(shares[i]);
    }
    forall s | s in shares ensures IsV2(s) in v2Flags {
      var i :| 0 <= i < |shares| && shares[i] == s;
      assert v2Flags[i] == IsV2(s);
    }
  }

  method HasSameLengths(shares: seq<Bytes>) returns (same: bool)
    requires shares != []
    ensures same == SameLength(shares)
  {
    for i := 0 to |shares|
      invariant forall k | 0 <= k < i :: |shares[k]| == |shares[0]|
    {
      if |shares[i]| != |shares[0]| {
        return false;
      }
    }
    return true;
  }

  /** The single threshold marker of V2 shares, if they agree on one. */
  method CommonThreshold(shares: seq<Bytes>) returns (threshold: Option<bv8>)
    requires shares != [] && forall s | s in shares :: |s| >= 4
    ensures threshold.None? <==> exists s | s in shares :: s[3] != shares[0][3]
    ensures threshold.Some? ==> threshold.value == shares[0][3]
  {
    var thresholds := set s | s in shares :: s[3];
    assert shares[0][3] in thresholds;
    SingletonCount(thresholds, shares[0][3]);
    if |thresholds| != 1 {
      return None;
    }
    var value :| value in thresholds;
    forall s | s in shares ensures s[3] == shares[0][3] {
      assert s[3] in thresholds;
    }
    return Some(value);
  }

  method Combine(hash: Hash, shares: seq<Bytes>) returns (result: Result<Bytes, Error>)
    ensures result == Combined(hash, shares)
  {
    hide Ids, Distinct, IsV2, Recovered, Checksum;
    if |shares| < 2 {
      return Err(TooFewShares);
    }
    if [] in shares {
      return Err(EmptyShare);
    }
    var distinct := HasDistinctIds(shares);
    if !distinct {
      return Err(DuplicateIds);
    }
    var someV2, allV2 := FormatFlags(shares);
    if someV2 && !allV2 {
      return Err(MixedFormats);
    }
    var same := HasSameLengths(shares);
    if !same {
      return Err(InconsistentLengths);
    }
    assert shares[0] in shares;
    if !allV2 {
      var payload := Reconstruct(shares, 1, |shares[0]| - 1);
      return Ok(payload);
    }
    if |shares[0]| < 4 {
      return Err(MissingThreshold);
    }
    var threshold := CommonThreshold(shares);
    if threshold.None? {
      return Err(InconsistentThresholds);
    }
    if |shares| < threshold.value as int {
      return Err(BelowThreshold);
    }
    var payload := Reconstruct(shares, 4, |shares[0]| - 4);
    var secret := Tail(payload);
    if Head(payload) != Checksum(hash, secret) {
      return Err(IntegrityFailed);
    }
    return Ok(secret);
  }

  /** The loop over byte positions. With distinct ids the interpolation cannot fail. */
  method Reconstruct(shares: seq<Bytes>, skip: nat, length: nat) returns (payload: Bytes)
    requires [] !in shares && Distinct(Ids(shares))
    requires forall s | s in shares :: |s| == skip + length
    ensures payload == Recovered(shares, skip, length)
  {
    hide Interpolated, FirstAt;
    payload := [];
    for pos := 0 to length
      invariant |payload| == pos
      invariant forall k | 0 <= k < pos :: payload[k] == Interpolated(PointsAt(shares, skip + k), 0)
    {
      var points := PointsAt(shares, skip + pos);
      assert forall i | 0 <= i < |points| :: points[i].x == Ids(shares)[i];
      var value := LagrangeInterpolate(points, 0);
      payload := payload + [value.value];
    }
  }

  lemma IdSet(shares: seq<Bytes>)
    requires [] !in shares
    ensures (set s | s in shares :: s[0]) == (set x | x in Ids(shares))
  {
    forall s | s in shares ensures s[0] in Ids(shares) {
      var i :| 0 <= i < |shares| && shares[i] == s;
      assert Ids(shares)[i] == s[0];
    }
  }

  lemma DistinctTail(xs: seq<bv8>)
    requires xs != []
    ensures Distinct(xs) <==> xs[0] !in xs[1..] && Distinct(xs[1..])
  {
    var tail := xs[1..];
    assert forall i | 0 <= i < |tail| :: tail[i] == xs[i + 1];
    if xs[0] !in tail && Distinct(tail) {
      forall i, j | 0 <= i < j < |xs| ensures xs[i] != xs[j] {
        assert xs[j] == tail[j - 1];
        assert i > 0 ==> xs[i] == tail[i - 1];
      }
    }
  }

  lemma {:induction false} DistinctCount(xs: seq<bv8>)
    ensures |set x | x in xs| <= |xs|
    ensures |set x | x in xs| == |xs| <==> Distinct(xs)
  {
    hide Distinct;
    if xs == [] {
      assert Distinct([]) by { NothingDistinct(); }
    } else {
      DistinctCount(xs[1..]);
      DistinctTail(xs);
      var all, rest := set x | x in xs, set x | x in xs[1..];
      assert all == rest + {xs[0]};
      if xs[0] in rest {
        assert all == rest;
      }
    }
  }

  lemma NothingDistinct()
    ensures Distinct([])
  {}

  lemma SingletonCount(s: set<bv8>, x: bv8)
    requires x in s
    ensures |s| == 1 <==> forall y | y in s :: y == x
  {
    var rest := s - {x};
    assert s == rest + {x};
    if forall y | y in s :: y == x {
      assert rest == {};
    }
  }
}
