/** What the secret-sharing scheme is for: K shares bring the secret back, fewer are refused and say
    nothing, and an altered share shows. */
module ShamirTheorems {
  import opened ByteArrays
  import opened GF256
  import opened Polynomial
  import opened Shamir
  import opened Wrappers

  ghost predicate ValidRows(rows: seq<Bytes>, threshold: nat, n: nat) {
    |rows| == n && forall i | 0 <= i < n :: |rows[i]| == threshold - 1
  }

  ghost predicate DistinctPicks(picks: seq<nat>, n: nat) {
    && (forall i | 0 <= i < |picks| :: picks[i] < n)
    && (forall i, j | 0 <= i < j < |picks| :: picks[i] != picks[j])
  }

  /** The chosen shares, in the chosen order. */
  function Picked(shares: seq<Bytes>, picks: seq<nat>): (chosen: seq<Bytes>)
    requires forall i | 0 <= i < |picks| :: picks[i] < |shares|
    ensures |chosen| == |picks|
  {
    seq(|picks|, i requires 0 <= i < |picks| => shares[picks[i]])
  }

  lemma ShareIds(picks: seq<nat>, i: nat, j: nat)
    requires DistinctPicks(picks, 255) && i < |picks| && j < |picks|
    ensures Byte(picks[i] + 1) == Byte(picks[j] + 1) ==> i == j
    ensures Byte(picks[i] + 1) != 0
  {
    ByteValue(picks[i] + 1);
    ByteValue(picks[j] + 1);
    hide Byte;
  }

  /** The wire format of a share made by `split`. */
  lemma ShareFormat(payload: Bytes, rows: seq<Bytes>, threshold: bv8, id: bv8)
    requires |rows| == |payload|
    ensures var s := Share(payload, rows, threshold, id);
            && |s| == |payload| + 4 && s[0] == id && IsV2(s) && s[3] == threshold
            && s[4..] == Shard(payload, rows, id)
            && forall p | 0 <= p < |payload| :: s[4 + p] == Eval([payload[p]] + rows[p], id)
  {
    hide Eval;
    var s := Share(payload, rows, threshold, id);
    assert s[1..3] == MAGIC;
    assert s[4..] == Shard(payload, rows, id);
    assert forall p | 0 <= p < |payload| :: s[4 + p] == s[4..][p];
  }

  lemma PickedFormat(payload: Bytes, rows: seq<Bytes>, threshold: nat, n: nat, picks: seq<nat>)
    requires ValidRows(rows, threshold, |payload|) && 2 <= threshold <= n <= 255 && DistinctPicks(picks, n)
    ensures var chosen := Picked(Shares(payload, rows, threshold, n), picks);
            && [] !in chosen && Distinct(Ids(chosen)) && 0 !in Ids(chosen)
            && (forall s | s in chosen :: |s| == |payload| + 4 && IsV2(s) && s[3] == Byte(threshold))
  {
    hide Eval, Byte, IsV2, Shard, Share;
    var chosen := Picked(Shares(payload, rows, threshold, n), picks);
    forall i | 0 <= i < |chosen|
      ensures chosen[i] == Share(payload, rows, Byte(threshold), Byte(picks[i] + 1))
      ensures |chosen[i]| == |payload| + 4 && IsV2(chosen[i]) && chosen[i][3] == Byte(threshold)
      ensures chosen[i][0] == Byte(picks[i] + 1)
    {
      ShareFormat(payload, rows, Byte(threshold), Byte(picks[i] + 1));
    }
    assert DistinctPicks(picks, 255);
    forall i, j | 0 <= i < j < |chosen| ensures Ids(chosen)[i] != Ids(chosen)[j] {
      ShareIds(picks, i, j);
    }
    forall i | 0 <= i < |chosen| ensures Ids(chosen)[i] != 0 {
      ShareIds(picks, i, i);
    }
  }

  lemma EvalAtZero(c: Poly)
    requires c != []
    ensures Eval(c, 0) == c[0]
  {
    MulOneZero(Eval(c[1..], 0));
    AddLaws(c[0], 0, 0);
    hide Add, Mul;
  }

  lemma RecoveredByte(payload: Bytes, rows: seq<Bytes>, threshold: nat, n: nat, picks: seq<nat>, p: nat)
    requires ValidRows(rows, threshold, |payload|) && 2 <= threshold <= n <= 255
    requires DistinctPicks(picks, n) && |picks| >= threshold && p < |payload|
    ensures var chosen := Picked(Shares(payload, rows, threshold, n), picks);
            (forall s | s in chosen :: 4 + p < |s|) && Interpolated(PointsAt(chosen, 4 + p), 0) == payload[p]
  {
    hide Eval, Byte, IsV2, Shard, Interpolated;
    var chosen := Picked(Shares(payload, rows, threshold, n), picks);
    PickedFormat(payload, rows, threshold, n, picks);
    var c, points := [payload[p]] + rows[p], PointsAt(chosen, 4 + p);
    forall i | 0 <= i < |points| ensures Eval(c, points[i].x) == points[i].y && points[i].x == Ids(chosen)[i] {
      ShareFormat(payload, rows, Byte(threshold), Byte(picks[i] + 1));
    }
    assert Xs(points) == Ids(chosen);
    InterpolatedIsEval(points, c, 0);
    EvalAtZero(c);
  }

  lemma RecoversPayload(payload: Bytes, rows: seq<Bytes>, threshold: nat, n: nat, picks: seq<nat>)
    requires ValidRows(rows, threshold, |payload|) && 2 <= threshold <= n <= 255
    requires DistinctPicks(picks, n) && |picks| >= threshold
    ensures var chosen := Picked(Shares(payload, rows, threshold, n), picks);
            (forall s | s in chosen :: |s| == 4 + |payload|) && Recovered(chosen, 4, |payload|) == payload
  {
    hide Interpolated, Eval, IsV2, Shard, Share, Byte;
    var chosen := Picked(Shares(payload, rows, threshold, n), picks);
    PickedFormat(payload, rows, threshold, n, picks);
    forall p | 0 <= p < |payload| ensures Recovered(chosen, 4, |payload|)[p] == payload[p] {
      RecoveredByte(payload, rows, threshold, n, picks, p);
    }
  }

  /** For every secret, every 2 <= K <= N <= 255, every choice of random coefficients and every
      choice of distinct shares in any order: K or more give back exactly the secret, and fewer are
      refused for being too few. */
  lemma CombineOfSplit(hash: Hash, secret: Bytes, rows: seq<Bytes>, threshold: nat, n: nat, picks: seq<nat>)
    requires 2 <= threshold <= n <= 255
    requires ValidRows(rows, threshold, |secret| + CHECKSUM_LEN) && DistinctPicks(picks, n)
    ensures Combined(hash, Picked(Shares(Payload(hash, secret), rows, threshold, n), picks)) ==
            if |picks| < 2 then Err(TooFewShares)
            else if |picks| < threshold then Err(BelowThreshold)
            else Ok(secret)
  {
    hide IsV2, Eval, Interpolated, Ids, Distinct, Shard, Share, Byte, Recovered, Checksum;
    var payload := Payload(hash, secret);
    var chosen := Picked(Shares(payload, rows, threshold, n), picks);
    PickedFormat(payload, rows, threshold, n, picks);
    ByteValue(threshold);
    if |picks| >= 2 {
      assert chosen[0] in chosen;
    }
    if |picks| >= threshold {
      RecoversPayload(payload, rows, threshold, n, picks);
      assert Head(payload) == Checksum(hash, secret) && Tail(payload) == secret;
    }
  }

  // ----- fewer than K shares say nothing

  /** These random coefficients make `split` write exactly the shares that were seen. */
  ghost predicate Explains(rows: seq<Bytes>, payload: Bytes, threshold: nat, n: nat, picks: seq<nat>, seen: seq<Bytes>)
    requires threshold <= n <= 255 && DistinctPicks(picks, n)
  {
    && ValidRows(rows, threshold, |payload|)
    && Picked(Shares(payload, rows, threshold, n), picks) == seen
  }

  /** Some shares on the wire: the ids that were picked, the marker, K, and any shard bytes. */
  ghost predicate Observed(seen: seq<Bytes>, picks: seq<nat>, threshold: nat, n: nat, length: nat)
    requires threshold <= n <= 255 && DistinctPicks(picks, n)
  {
    && |seen| == |picks|
    && forall i | 0 <= i < |seen| ::
         && |seen[i]| == length + 4
         && seen[i][..4] == [Byte(picks[i] + 1)] + MAGIC + [Byte(threshold)]
  }

  /** The points position p must pass through: the payload byte at 0, and what was seen. */
  function Constraints(payloadByte: bv8, picks: seq<nat>, seen: seq<Bytes>, p: nat): (ps: seq<Point>)
    requires |seen| == |picks|
    requires forall i | 0 <= i < |picks| :: picks[i] < 255 && 4 + p < |seen[i]|
    ensures |ps| == |picks| + 1
  {
    [Point(0, payloadByte)] + seq(|picks|, i requires 0 <= i < |picks| => Point(Byte(picks[i] + 1), seen[i][4 + p]))
  }

  lemma ConstraintsDistinct(payloadByte: bv8, picks: seq<nat>, seen: seq<Bytes>, p: nat)
    requires |seen| == |picks| && DistinctPicks(picks, 255)
    requires forall i | 0 <= i < |picks| :: 4 + p < |seen[i]|
    ensures Distinct(Xs(Constraints(payloadByte, picks, seen, p)))
  {
    hide Byte;
    var ps := Constraints(payloadByte, picks, seen, p);
    forall i, j | 0 <= i < j < |ps| ensures Xs(ps)[i] != Xs(ps)[j] {
      ShareIds(picks, j - 1, j - 1);
      if i > 0 {
        ShareIds(picks, i - 1, j - 1);
      }
    }
  }

  /** The interpolating polynomial with as many coefficients as `split` uses. */
  function FittingPoly(ps: seq<Point>, threshold: nat): (c: Poly)
    requires 1 <= |ps| <= threshold
    ensures |c| == threshold
  {
    LagrangePoly(ps, |ps|) + Zeros(threshold - |ps|)
  }

  lemma FittingPolyFits(ps: seq<Point>, threshold: nat, k: nat)
    requires 1 <= |ps| <= threshold && k < |ps| && Distinct(Xs(ps))
    ensures Eval(FittingPoly(ps, threshold), ps[k].x) == ps[k].y
  {
    hide Eval, LagrangePoly, Zeros, Xs, Distinct;
    EvalPadded(LagrangePoly(ps, |ps|), threshold - |ps|, ps[k].x);
    Interpolates(ps, k);
  }

  function ExplainingRow(payloadByte: bv8, threshold: nat, picks: seq<nat>, seen: seq<Bytes>, p: nat): (row: Bytes)
    requires |seen| == |picks| < threshold
    requires forall i | 0 <= i < |picks| :: picks[i] < 255 && 4 + p < |seen[i]|
    ensures |row| == threshold - 1
  {
    FittingPoly(Constraints(payloadByte, picks, seen, p), threshold)[1..]
  }

  lemma ExplainingRowExplains(b: bv8, threshold: nat, picks: seq<nat>, seen: seq<Bytes>, p: nat, i: nat)
    requires |seen| == |picks| < threshold && DistinctPicks(picks, 255) && i < |picks|
    requires forall i | 0 <= i < |picks| :: 4 + p < |seen[i]|
    ensures Eval([b] + ExplainingRow(b, threshold, picks, seen, p), Byte(picks[i] + 1)) == seen[i][4 + p]
  {
    hide Eval, Byte, FittingPoly;
    var ps := Constraints(b, picks, seen, p);
    var c := FittingPoly(ps, threshold);
    ConstraintsDistinct(b, picks, seen, p);
    FittingPolyFits(ps, threshold, 0);
    FittingPolyFits(ps, threshold, i + 1);
    EvalAtZero(c);
    assert [b] + c[1..] == c;
  }

  lemma MadeIsSeen(payload: Bytes, rows: seq<Bytes>, threshold: nat, picks: seq<nat>, seen: seq<Bytes>, i: nat)
    requires |seen| == |picks| < threshold <= 255 && DistinctPicks(picks, 255) && i < |picks|
    requires forall j | 0 <= j < |picks| :: |seen[j]| == |payload| + 4
    requires seen[i][..4] == [Byte(picks[i] + 1)] + MAGIC + [Byte(threshold)]
    requires |rows| == |payload| && forall p | 0 <= p < |payload| :: rows[p] == ExplainingRow(payload[p], threshold, picks, seen, p)
    ensures Share(payload, rows, Byte(threshold), Byte(picks[i] + 1)) == seen[i]
  {
    hide Eval, Byte, ExplainingRow, IsV2;
    var id := Byte(picks[i] + 1);
    var made := Share(payload, rows, Byte(threshold), id);
    forall p | 0 <= p < |payload| ensures Shard(payload, rows, id)[p] == seen[i][4..][p] {
      ExplainingRowExplains(payload[p], threshold, picks, seen, p, i);
    }
    assert Shard(payload, rows, id) == seen[i][4..];
    assert seen[i] == seen[i][..4] + seen[i][4..];
  }

  lemma ExplanationExists(payload: Bytes, threshold: nat, n: nat, picks: seq<nat>, seen: seq<Bytes>)
    returns (rows: seq<Bytes>)
    requires 2 <= threshold <= n <= 255 && DistinctPicks(picks, n) && |picks| < threshold
    requires Observed(seen, picks, threshold, n, |payload|)
    ensures Explains(rows, payload, threshold, n, picks, seen)
  {
    hide Eval, Byte, ExplainingRow, IsV2, Share;
    assert DistinctPicks(picks, 255);
    rows := seq(|payload|, p requires 0 <= p < |payload| => ExplainingRow(payload[p], threshold, picks, seen, p));
    var made := Picked(Shares(payload, rows, threshold, n), picks);
    forall i | 0 <= i < |made| ensures made[i] == seen[i] {
      MadeIsSeen(payload, rows, threshold, picks, seen, i);
    }
  }

  lemma ExplainedByte(rows: seq<Bytes>, payload: Bytes, threshold: nat, n: nat, picks: seq<nat>, seen: seq<Bytes>, i: nat, p: nat)
    requires threshold <= n <= 255 && DistinctPicks(picks, n) && Explains(rows, payload, threshold, n, picks, seen)
    requires i < |picks| && p < |payload|
    ensures |seen| == |picks| && 4 + p < |seen[i]|
    ensures Eval([payload[p]] + rows[p], Byte(picks[i] + 1)) == seen[i][4 + p]
  {
    hide Eval, Byte, IsV2;
    ShareFormat(payload, rows, Byte(threshold), Byte(picks[i] + 1));
  }

  lemma ExplanationUnique(rows: seq<Bytes>, rows': seq<Bytes>, payload: Bytes, threshold: nat, n: nat, picks: seq<nat>, seen: seq<Bytes>)
    requires 2 <= threshold <= n <= 255 && DistinctPicks(picks, n) && |picks| == threshold - 1
    requires Explains(rows, payload, threshold, n, picks, seen) && Explains(rows', payload, threshold, n, picks, seen)
    ensures rows == rows'
  {
    hide Eval, Byte, Shares, Picked;
    forall p | 0 <= p < |payload| ensures rows[p] == rows'[p] {
      var c, d := [payload[p]] + rows[p], [payload[p]] + rows'[p];
      forall i | 0 <= i < |picks| ensures 4 + p < |seen[i]| && |seen| == |picks| {
        ExplainedByte(rows, payload, threshold, n, picks, seen, i, p);
      }
      ExplainedByte(rows, payload, threshold, n, picks, seen, 0, p);
      var xs := Xs(Constraints(payload[p], picks, seen, p));
      forall k | 0 <= k < |xs| ensures Eval(c, xs[k]) == Eval(d, xs[k]) {
        if k == 0 {
          EvalAtZero(c);
          EvalAtZero(d);
        } else {
          ExplainedByte(rows, payload, threshold, n, picks, seen, k - 1, p);
          ExplainedByte(rows', payload, threshold, n, picks, seen, k - 1, p);
        }
      }
      ConstraintsDistinct(payload[p], picks, seen, p);
      AgreementIsEquality(c, d, xs);
      assert rows[p] == c[1..] && rows'[p] == d[1..];
    }
  }

  /** Whatever K - 1 shares show, every candidate secret of the right length is
      explained by exactly one choice of the random coefficients; fewer shares rule out none. */
  lemma FewerSharesSayNothing(hash: Hash, candidate: Bytes, threshold: nat, n: nat, picks: seq<nat>, seen: seq<Bytes>)
    requires 2 <= threshold <= n <= 255 && DistinctPicks(picks, n) && |picks| < threshold
    requires Observed(seen, picks, threshold, n, |candidate| + CHECKSUM_LEN)
    ensures exists rows :: Explains(rows, Payload(hash, candidate), threshold, n, picks, seen)
    ensures |picks| == threshold - 1 ==>
              forall rows, rows' |
                && Explains(rows, Payload(hash, candidate), threshold, n, picks, seen)
                && Explains(rows', Payload(hash, candidate), threshold, n, picks, seen)
                :: rows == rows'
  {
    hide Explains, Observed, Checksum;
    var payload := Payload(hash, candidate);
    var rows := ExplanationExists(payload, threshold, n, picks, seen);
    if |picks| == threshold - 1 {
      forall r, r' | Explains(r, payload, threshold, n, picks, seen) && Explains(r', payload, threshold, n, picks, seen)
        ensures r == r'
      {
        ExplanationUnique(r, r', payload, threshold, n, picks, seen);
      }
    }
  }

  /** The random source that delivers these coefficients. */
  function Delivering(rows: seq<Bytes>): Entropy {
    (i: nat, j: nat) => if i < |rows| && j < |rows[i]| then Some(rows[i][j]) else None
  }

  /** Every choice of coefficients is drawn from some random source, and every source that delivers
      draws one: counting coefficients is counting what the source can deliver. */
  lemma EveryChoiceIsDrawn(rows: seq<Bytes>, threshold: nat, n: nat)
    requires threshold >= 1 && ValidRows(rows, threshold, n)
    ensures Supplies(Delivering(rows), threshold, n) && Drawn(Delivering(rows), threshold, n) == rows
  {
    forall i | 0 <= i < n ensures Drawn(Delivering(rows), threshold, n)[i] == rows[i] {
      RowIsDrawn(rows, threshold, n, i);
    }
  }

  lemma RowIsDrawn(rows: seq<Bytes>, threshold: nat, n: nat, i: nat)
    requires threshold >= 1 && ValidRows(rows, threshold, n) && i < n
    ensures Drawn(Delivering(rows), threshold, n)[i] == rows[i]
  {
    var drawn, row := Drawn(Delivering(rows), threshold, n)[i], rows[i];
    assert |drawn| == |row| == threshold - 1;
    forall j | 0 <= j < |row| ensures drawn[j] == row[j] {
      assert Delivering(rows)(i, j) == Some(row[j]);
    }
  }

  /** So whatever fewer than K shares show, for every candidate secret the random source could have
      delivered bytes from which `split` makes exactly those shares of that secret. */
  lemma SourceExplains(hash: Hash, candidate: Bytes, threshold: nat, n: nat, picks: seq<nat>, seen: seq<Bytes>)
    returns (entropy: Entropy)
    requires 2 <= threshold <= n <= 255 && DistinctPicks(picks, n) && |picks| < threshold
    requires Observed(seen, picks, threshold, n, |candidate| + CHECKSUM_LEN)
    ensures var length := |candidate| + CHECKSUM_LEN;
            && Supplies(entropy, threshold, length)
            && Picked(Shares(Payload(hash, candidate), Drawn(entropy, threshold, length), threshold, n), picks) == seen
  {
    hide Observed, Supplies, Drawn, Shares, Picked, Checksum;
    var rows := ExplanationExists(Payload(hash, candidate), threshold, n, picks, seen);
    EveryChoiceIsDrawn(rows, threshold, |candidate| + CHECKSUM_LEN);
    entropy := Delivering(rows);
  }

  /** Row by row, the sum of two choices of coefficients. */
  function AddRows(rows: seq<Bytes>, shift: seq<Bytes>): (sum: seq<Bytes>)
    requires |rows| == |shift| && forall i | 0 <= i < |rows| :: |rows[i]| == |shift[i]|
    ensures |sum| == |rows| && forall i | 0 <= i < |rows| :: |sum[i]| == |rows[i]|
  {
    seq(|rows|, i requires 0 <= i < |rows| => AddPoly(rows[i], shift[i]))
  }

  /** Shares of the right length that show zero at every position. */
  function Silent(picks: seq<nat>, length: nat): (seen: seq<Bytes>)
    ensures |seen| == |picks|
  {
    seq(|picks|, _ => Zeros(length + 4))
  }

  /** Coefficients that carry one payload's shares over to another's: they explain silent shares of
      the difference of the two. */
  function Shift(p: Bytes, q: Bytes, threshold: nat, picks: seq<nat>): (shift: seq<Bytes>)
    requires |p| == |q| && |picks| < threshold && DistinctPicks(picks, 255)
    ensures ValidRows(shift, threshold, |p|)
  {
    seq(|p|, i requires 0 <= i < |p| => ExplainingRow(Add(p[i], q[i]), threshold, picks, Silent(picks, |p|), i))
  }

  lemma {:induction false} AddPolyTwice(c: Poly, d: Poly)
    requires |c| == |d|
    ensures AddPoly(AddPoly(c, d), d) == c
  {
    if c != [] {
      hide Add;
      AddCancel(d[0], c[0]);
      AddPolyTwice(c[1..], d[1..]);
      assert AddPoly(c, d)[1..] == AddPoly(c[1..], d[1..]);
    }
  }

  lemma AddRowsTwice(rows: seq<Bytes>, shift: seq<Bytes>)
    requires |rows| == |shift| && forall i | 0 <= i < |rows| :: |rows[i]| == |shift[i]|
    ensures AddRows(AddRows(rows, shift), shift) == rows
  {
    hide AddPoly;
    forall i | 0 <= i < |rows| ensures AddRows(AddRows(rows, shift), shift)[i] == rows[i] {
      AddPolyTwice(rows[i], shift[i]);
    }
  }

  lemma ShiftedByte(b: bv8, c: bv8, row: Bytes, shift: Bytes, x: bv8)
    requires |row| == |shift| && Eval([Add(b, c)] + shift, x) == 0
    ensures Eval([c] + AddPoly(row, shift), x) == Eval([b] + row, x)
  {
    hide Add, Mul, Eval;
    var f, g := [b] + row, [Add(b, c)] + shift;
    EvalAddPoly(f, g, x);
    AddLaws(Eval(f, x), 0, 0);
    AddCancel(b, c);
    assert f[1..] == row && g[1..] == shift;
    assert AddPoly(f, g) == [c] + AddPoly(row, shift);
  }

  lemma SameShare(p: Bytes, q: Bytes, rows: seq<Bytes>, threshold: nat, picks: seq<nat>, k: nat)
    requires |p| == |q| && |picks| < threshold <= 255 && DistinctPicks(picks, 255) && k < |picks|
    requires ValidRows(rows, threshold, |p|)
    ensures Share(q, AddRows(rows, Shift(p, q, threshold, picks)), Byte(threshold), Byte(picks[k] + 1)) ==
            Share(p, rows, Byte(threshold), Byte(picks[k] + 1))
  {
    hide Eval, Byte, ExplainingRow, Add, AddPoly;
    var shift, id := Shift(p, q, threshold, picks), Byte(picks[k] + 1);
    forall i | 0 <= i < |p| ensures Shard(q, AddRows(rows, shift), id)[i] == Shard(p, rows, id)[i] {
      ExplainingRowExplains(Add(p[i], q[i]), threshold, picks, Silent(picks, |p|), i, k);
      ShiftedByte(p[i], q[i], rows[i], shift[i], id);
    }
    assert Shard(q, AddRows(rows, shift), id) == Shard(p, rows, id);
  }

  lemma SameShares(p: Bytes, q: Bytes, rows: seq<Bytes>, threshold: nat, n: nat, picks: seq<nat>)
    requires |p| == |q| && |picks| < threshold <= n <= 255 && DistinctPicks(picks, n)
    requires ValidRows(rows, threshold, |p|)
    ensures Picked(Shares(q, AddRows(rows, Shift(p, q, threshold, picks)), threshold, n), picks) ==
            Picked(Shares(p, rows, threshold, n), picks)
  {
    hide Share, Byte, Shift, AddRows;
    assert DistinctPicks(picks, 255);
    forall k | 0 <= k < |picks|
      ensures Picked(Shares(q, AddRows(rows, Shift(p, q, threshold, picks)), threshold, n), picks)[k] ==
              Picked(Shares(p, rows, threshold, n), picks)[k]
    {
      SameShare(p, q, rows, threshold, picks, k);
    }
  }

  /** Perfect secrecy at every size below K: adding one fixed choice of coefficients is its own
      inverse and takes the explanations of one candidate secret to those of any other, whatever the
      shares show. So every candidate has as many of them as every other. */
  lemma CandidatesAreEquallyLikely(hash: Hash, candidate: Bytes, other: Bytes, threshold: nat, n: nat, picks: seq<nat>)
    returns (shift: seq<Bytes>)
    requires |candidate| == |other| && 2 <= threshold <= n <= 255
    requires DistinctPicks(picks, n) && |picks| < threshold
    ensures ValidRows(shift, threshold, |candidate| + CHECKSUM_LEN)
    ensures forall rows | ValidRows(rows, threshold, |candidate| + CHECKSUM_LEN) ::
              && AddRows(AddRows(rows, shift), shift) == rows
              && forall seen :: Explains(rows, Payload(hash, candidate), threshold, n, picks, seen)
                           <==> Explains(AddRows(rows, shift), Payload(hash, other), threshold, n, picks, seen)
  {
    hide Shares, Picked, AddRows, Shift, Checksum;
    var p, q := Payload(hash, candidate), Payload(hash, other);
    assert DistinctPicks(picks, 255);
    shift := Shift(p, q, threshold, picks);
    forall rows | ValidRows(rows, threshold, |p|)
      ensures AddRows(AddRows(rows, shift), shift) == rows
      ensures ValidRows(AddRows(rows, shift), threshold, |q|)
      ensures forall seen :: Explains(rows, p, threshold, n, picks, seen)
                        <==> Explains(AddRows(rows, shift), q, threshold, n, picks, seen)
    {
      AddRowsTwice(rows, shift);
      SameShares(p, q, rows, threshold, n, picks);
    }
  }

  // ----- an altered share shows

  lemma {:induction false} SumAfterChange(ps: seq<Point>, j: nat, y: bv8, x: bv8, n: nat)
    requires j < |ps| && n <= |ps|
    ensures Xs(ps[j := Point(ps[j].x, y)]) == Xs(ps)
    ensures LagrangeSum(ps[j := Point(ps[j].x, y)], x, n) ==
            if j < n then Add(LagrangeSum(ps, x, n), Mul(Add(ps[j].y, y), Weight(Xs(ps), j, x)))
            else LagrangeSum(ps, x, n)
  {
    hide Add, Mul, Weight;
    var qs := ps[j := Point(ps[j].x, y)];
    assert Xs(qs) == Xs(ps);
    if n > 0 {
      SumAfterChange(ps, j, y, x, n - 1);
      var before, w := LagrangeSum(ps, x, n - 1), Weight(Xs(ps), n - 1, x);
      if n - 1 == j {
        AddLaws(before, Mul(ps[j].y, w), Mul(Add(ps[j].y, y), w));
        MulAddLeft(ps[j].y, y, w);
        AddCancel(Mul(ps[j].y, w), Mul(y, w));
      } else if j < n - 1 {
        var d, t := Mul(Add(ps[j].y, y), Weight(Xs(ps), j, x)), Mul(ps[n - 1].y, w);
        AddLaws(before, d, t);
        AddLaws(d, t, 0);
        AddLaws(before, t, d);
      }
    }
  }

  /** No Lagrange weight is zero away from the points. */
  lemma WeightNonZero(xs: seq<bv8>, j: nat, x: bv8)
    requires j < |xs| && Distinct(xs) && x !in xs
    ensures Weight(xs, j, x) != 0
  {
    hide Mul, Inv, ProductExcept;
    ProductNonZero(xs, j, x, |xs|);
    ProductNonZero(xs, j, xs[j], |xs|);
    var d := Denominator(xs, j);
    MulInverse(d);
    MulOneZero(d);
    NoZeroDivisors(ProductExcept(xs, j, x, |xs|), Inv(d));
  }

  lemma {:induction false} FirstAtSame(ps: seq<Point>, qs: seq<Point>, x: bv8)
    requires Xs(ps) == Xs(qs)
    ensures FirstAt(ps, x) == FirstAt(qs, x)
  {
    if ps != [] {
      assert ps[0].x == Xs(ps)[0] == qs[0].x;
      assert Xs(ps[1..]) == Xs(ps)[1..] == Xs(qs[1..]);
      FirstAtSame(ps[1..], qs[1..], x);
    }
  }

  /** Changing one y value changes the result at x, unless another point sits at x. */
  lemma InterpolatedAfterChange(ps: seq<Point>, j: nat, y: bv8, x: bv8)
    requires j < |ps| && Distinct(Xs(ps))
    ensures Interpolated(ps[j := Point(ps[j].x, y)], x) != Interpolated(ps, x) <==>
            y != ps[j].y && (ps[j].x == x || x !in Xs(ps))
  {
    hide Add, Mul, Weight, LagrangeSum, FirstAt;
    var qs, xs := ps[j := Point(ps[j].x, y)], Xs(ps);
    SumAfterChange(ps, j, y, x, |ps|);
    FirstAtSame(ps, qs, x);
    var k := FirstAt(ps, x);
    if k < |ps| {
      assert xs[k] == x && xs[j] == ps[j].x;
    } else {
      assert x !in xs by {
        forall i | 0 <= i < |xs| ensures xs[i] != x { assert xs[i] == ps[i].x; }
      }
      var s, w := LagrangeSum(ps, x, |ps|), Weight(xs, j, x);
      WeightNonZero(xs, j, x);
      NoZeroDivisors(Add(ps[j].y, y), w);
      AddLaws(ps[j].y, y, 0);
      AddLaws(s, Mul(Add(ps[j].y, y), w), 0);
      AddCancel(s, Mul(Add(ps[j].y, y), w));
      AddLaws(s, s, 0);
    }
  }

  /** Another share with the same id byte and format header. */
  predicate SameHeader(s: Bytes, t: Bytes, skip: nat) {
    |s| == |t| && 1 <= skip <= |s| && s[..skip] == t[..skip]
  }

  lemma PointsAfterChange(shares: seq<Bytes>, j: nat, altered: Bytes, p: nat)
    requires j < |shares| && altered != [] && shares[j] != [] && altered[0] == shares[j][0]
    requires p < |altered| && forall s | s in shares :: p < |s|
    ensures forall s | s in shares[j := altered] :: p < |s|
    ensures PointsAt(shares[j := altered], p) ==
            var ps := PointsAt(shares, p); ps[j := Point(ps[j].x, altered[p])]
  {
    forall s | s in shares[j := altered] ensures p < |s| {
      var i :| 0 <= i < |shares| && shares[j := altered][i] == s;
      assert i != j ==> s == shares[i];
    }
  }

  /** Altering the shard of one share changes the payload at exactly the altered positions, unless
      the set holds the id 0 in another share, which alone then decides the payload. */
  lemma PayloadAfterChange(shares: seq<Bytes>, j: nat, altered: Bytes, skip: nat, length: nat, p: nat)
    requires j < |shares| && [] !in shares && Distinct(Ids(shares))
    requires (forall s | s in shares :: |s| == skip + length) && SameHeader(shares[j], altered, skip) && p < length
    ensures forall s | s in shares[j := altered] :: |s| == skip + length
    ensures Recovered(shares[j := altered], skip, length)[p] != Recovered(shares, skip, length)[p] <==>
            altered[skip + p] != shares[j][skip + p] && (shares[j][0] == 0 || 0 !in Ids(shares))
  {
    hide Interpolated;
    assert altered[0] == altered[..skip][0] == shares[j][0];
    forall s | s in shares[j := altered] ensures |s| == skip + length {
      var i :| 0 <= i < |shares| && shares[j := altered][i] == s;
      assert i != j ==> s == shares[i];
    }
    PointsAfterChange(shares, j, altered, skip + p);
    var ps := PointsAt(shares, skip + p);
    assert Xs(ps) == Ids(shares);
    InterpolatedAfterChange(ps, j, altered[skip + p], 0);
  }

  /** A V2 set that passes every structural check. */
  predicate WellFormedV2(shares: seq<Bytes>) {
    && |shares| >= 2 && [] !in shares && Distinct(Ids(shares)) && SameLength(shares)
    && (forall s | s in shares :: |s| >= 4 && IsV2(s) && s[3] == shares[0][3])
    && |shares| >= shares[0][3] as int
  }

  lemma CombinedWellFormed(hash: Hash, shares: seq<Bytes>)
    requires WellFormedV2(shares)
    ensures Combined(hash, shares) == Verified(hash, Recovered(shares, 4, |shares[0]| - 4))
  {
    hide IsV2, Ids, Distinct, Recovered, Verified;
    assert shares[0] in shares;
  }

  /** The marker: the two bytes "V2" behind the id. */
  lemma MarkerIs(s: Bytes)
    ensures IsV2(s) <==> |s| >= 3 && s[1] == 0x56 && s[2] == 0x32
  {
    if |s| >= 3 {
      assert s[1..3] == [s[1], s[2]];
    }
  }

  /** The one set that breaks `combine` for want of a threshold: distinct ids, and nothing but the
      marker behind each. */
  lemma MissingThresholdExactly(hash: Hash, shares: seq<Bytes>)
    requires |shares| >= 2 && [] !in shares
    ensures Combined(hash, shares) == Err(MissingThreshold) <==> Distinct(Ids(shares)) && forall s | s in shares :: s[1..] == MAGIC
    ensures Combined(hash, shares) != Err(EmptyShare)
  {
    hide IsV2, Ids, Distinct, Recovered, Checksum;
    assert shares[0] in shares;
    MarkerIs(shares[0]);
    forall s | s in shares ensures s[1..] == MAGIC <==> |s| == 3 && IsV2(s) {
      MarkerIs(s);
      assert |s| == 3 ==> s[1..] == [s[1], s[2]];
    }
  }

  /** A set from before V2 that passes every structural check. */
  predicate WellFormedLegacy(shares: seq<Bytes>) {
    && |shares| >= 2 && [] !in shares && Distinct(Ids(shares)) && SameLength(shares)
    && forall s | s in shares :: !IsV2(s)
  }

  /** The four bytes of the secret's hash, then the secret. */
  function Sealed(hash: Hash, secret: Bytes): Bytes {
    var h := hash(secret);
    [h.0, h.1, h.2, h.3] + secret
  }

  lemma VerifiedExactly(hash: Hash, payload: Bytes, secret: Bytes)
    ensures Verified(hash, payload) == Ok(secret) <==> payload == Sealed(hash, secret)
    ensures Verified(hash, payload).Ok? || Verified(hash, payload) == Err(IntegrityFailed)
  {
    if payload == Sealed(hash, secret) {
      assert Head(payload) == Checksum(hash, secret) && Tail(payload) == secret;
    }
    if Verified(hash, payload) == Ok(secret) {
      assert payload == Head(payload) + Tail(payload);
    }
  }

  lemma PassedChecks(hash: Hash, shares: seq<Bytes>)
    requires Combined(hash, shares).Ok?
    ensures WellFormedV2(shares) || WellFormedLegacy(shares)
    ensures WellFormedLegacy(shares) ==> !WellFormedV2(shares) && Combined(hash, shares) == Ok(Recovered(shares, 1, |shares[0]| - 1))
  {
    hide IsV2, Ids, Distinct, Recovered, Verified;
    assert shares[0] in shares;
    if WellFormedLegacy(shares) {
      assert !IsV2(shares[0]);
    }
  }

  lemma LegacyCombines(hash: Hash, shares: seq<Bytes>)
    requires WellFormedLegacy(shares)
    ensures Combined(hash, shares) == Ok(Recovered(shares, 1, |shares[0]| - 1))
  {
    hide IsV2, Ids, Distinct, Recovered, Verified;
    assert shares[0] in shares;
  }

  /** What `combine` accepts, and what it hands out then: a well-formed V2 set whose payload is the
      hash of the secret handed out followed by that secret, or a well-formed legacy set's payload. */
  lemma CombineAccepts(hash: Hash, shares: seq<Bytes>, secret: Bytes)
    ensures Combined(hash, shares) == Ok(secret) <==>
            || (WellFormedV2(shares) && |shares[0]| >= 4 && SameLength(shares) && Recovered(shares, 4, |shares[0]| - 4) == Sealed(hash, secret))
            || (WellFormedLegacy(shares) && |shares[0]| >= 1 && SameLength(shares) && Recovered(shares, 1, |shares[0]| - 1) == secret)
  {
    hide Combined, Recovered, Verified, Sealed, WellFormedV2, WellFormedLegacy, Distinct, Ids, IsV2;
    if Combined(hash, shares).Ok? {
      PassedChecks(hash, shares);
    }
    if WellFormedV2(shares) {
      WellFormedShape(shares);
      CombinedWellFormed(hash, shares);
      VerifiedExactly(hash, Recovered(shares, 4, |shares[0]| - 4), secret);
    }
    if WellFormedLegacy(shares) {
      LegacyShape(shares);
      LegacyCombines(hash, shares);
      NotBoth(shares);
    }
  }

  lemma WellFormedShape(shares: seq<Bytes>)
    requires WellFormedV2(shares)
    ensures |shares| >= 2 && SameLength(shares) && |shares[0]| >= 4 && forall s | s in shares :: |s| == 4 + (|shares[0]| - 4)
  {
    assert shares[0] in shares;
    hide IsV2, Ids, Distinct;
  }

  lemma LegacyShape(shares: seq<Bytes>)
    requires WellFormedLegacy(shares)
    ensures |shares| >= 2 && SameLength(shares) && |shares[0]| >= 1 && forall s | s in shares :: |s| == 1 + (|shares[0]| - 1)
  {
    assert shares[0] in shares;
    hide IsV2, Ids, Distinct;
  }

  lemma NotBoth(shares: seq<Bytes>)
    requires WellFormedLegacy(shares)
    ensures !WellFormedV2(shares)
  {
    assert shares[0] in shares && !IsV2(shares[0]);
    hide IsV2, Ids, Distinct;
  }

  lemma StillWellFormed(shares: seq<Bytes>, j: nat, altered: Bytes)
    requires WellFormedV2(shares) && j < |shares| && SameHeader(shares[j], altered, 4)
    ensures WellFormedV2(shares[j := altered]) && |altered| == |shares[0]|
  {
    var t := shares[j := altered];
    assert shares[j] in shares && shares[0] in shares;
    assert forall k | 0 <= k < 4 :: altered[k] == altered[..4][k] == shares[j][..4][k] == shares[j][k];
    assert altered[1..3] == shares[j][1..3];
    hide Distinct;
    forall s | s in t ensures |s| == |shares[0]| && IsV2(s) && s[3] == shares[0][3] {
      var i :| 0 <= i < |t| && t[i] == s;
      assert i != j ==> s == shares[i] && s in shares;
    }
    assert Ids(t) == Ids(shares);
  }

  /** Altering one shard of a well-formed V2 set: the answer is a secret only if what the altered set
      determines is the hash of that secret followed by it, which differs from the original payload exactly where the shard does. */
  lemma AlteredShare(hash: Hash, shares: seq<Bytes>, j: nat, altered: Bytes)
    requires WellFormedV2(shares) && 0 !in Ids(shares) && j < |shares| && SameHeader(shares[j], altered, 4)
    ensures WellFormedV2(shares[j := altered]) && |altered| == |shares[0]|
    ensures var n := |shares[0]| - 4;
            var before, after := Recovered(shares, 4, n), Recovered(shares[j := altered], 4, n);
            && Combined(hash, shares) == Verified(hash, before)
            && Combined(hash, shares[j := altered]) == Verified(hash, after)
            && (forall p | 0 <= p < n :: after[p] != before[p] <==> altered[4 + p] != shares[j][4 + p])
            && forall secret :: Combined(hash, shares[j := altered]) == Ok(secret) <==> after == Sealed(hash, secret)
  {
    hide Recovered, Verified, Combined, IsV2, Distinct, Sealed;
    CombinedWellFormed(hash, shares);
    StillWellFormed(shares, j, altered);
    CombinedWellFormed(hash, shares[j := altered]);
    var n := |shares[0]| - 4;
    forall secret ensures Combined(hash, shares[j := altered]) == Ok(secret) <==> Recovered(shares[j := altered], 4, n) == Sealed(hash, secret) {
      VerifiedExactly(hash, Recovered(shares[j := altered], 4, n), secret);
    }
    assert shares[0] in shares && shares[j] in shares;
    forall p | 0 <= p < n
      ensures Recovered(shares[j := altered], 4, n)[p] != Recovered(shares, 4, n)[p] <==> altered[4 + p] != shares[j][4 + p]
    {
      PayloadAfterChange(shares, j, altered, 4, n, p);
    }
  }

  /** A change confined to the checksum positions of one share is always refused. */
  lemma ChecksumChangeRefused(hash: Hash, shares: seq<Bytes>, j: nat, altered: Bytes)
    requires WellFormedV2(shares) && 0 !in Ids(shares)
    requires j < |shares| && SameHeader(shares[j], altered, 4)
    requires altered != shares[j] && forall k | 8 <= k < |altered| :: altered[k] == shares[j][k]
    ensures Combined(hash, shares).Ok? ==> Combined(hash, shares[j := altered]) == Err(IntegrityFailed)
  {
    hide Recovered, Combined, IsV2, Distinct, Checksum;
    AlteredShare(hash, shares, j, altered);
    if Combined(hash, shares).Ok? {
      var n := |shares[0]| - 4;
      var before, after := Recovered(shares, 4, n), Recovered(shares[j := altered], 4, n);
      assert n >= 4 by { assert |Head(before)| == 4; }
      assert forall i | 0 <= i < 4 :: altered[i] == altered[..4][i] == shares[j][..4][i] == shares[j][i];
      var k :| 0 <= k < |altered| && altered[k] != shares[j][k];
      assert after[k - 4] != before[k - 4] by { assert altered[4 + (k - 4)] != shares[j][4 + (k - 4)]; }
      assert Head(after)[k - 4] != Head(before)[k - 4];
      forall p | 4 <= p < n ensures after[p] == before[p] {
        assert altered[4 + p] == shares[j][4 + p];
      }
      assert Tail(after) == Tail(before);
    }
  }

  /** The two results apply to every K or more shares made by `split`. */
  lemma SplitSetWellFormed(payload: Bytes, rows: seq<Bytes>, threshold: nat, n: nat, picks: seq<nat>)
    requires ValidRows(rows, threshold, |payload|) && 2 <= threshold <= n <= 255 && DistinctPicks(picks, n)
    requires |picks| >= threshold
    ensures var chosen := Picked(Shares(payload, rows, threshold, n), picks);
            WellFormedV2(chosen) && 0 !in Ids(chosen)
  {
    hide Eval, IsV2, Shares, Byte, Distinct, Ids;
    PickedFormat(payload, rows, threshold, n, picks);
    ByteValue(threshold);
    var chosen := Picked(Shares(payload, rows, threshold, n), picks);
    assert chosen[0] in chosen;
  }

  // ----- shares from before the V2 format

  /** id | shard, with the secret itself as the payload. */
  function LegacyShare(secret: Bytes, rows: seq<Bytes>, id: bv8): (s: Bytes)
    requires |rows| == |secret|
  {
    [id] + Shard(secret, rows, id)
  }

  function LegacyShares(secret: Bytes, rows: seq<Bytes>, picks: seq<nat>): (shares: seq<Bytes>)
    requires |rows| == |secret| && DistinctPicks(picks, 255)
    ensures |shares| == |picks|
  {
    seq(|picks|, i requires 0 <= i < |picks| => LegacyShare(secret, rows, Byte(picks[i] + 1)))
  }

  lemma LegacyFormat(secret: Bytes, rows: seq<Bytes>, threshold: nat, picks: seq<nat>)
    requires ValidRows(rows, threshold, |secret|) && DistinctPicks(picks, 255)
    ensures var shares := LegacyShares(secret, rows, picks);
            && [] !in shares && Distinct(Ids(shares)) && (forall s | s in shares :: |s| == 1 + |secret|)
            && forall i, p | 0 <= i < |picks| && 0 <= p < |secret| ::
                 shares[i][1 + p] == Eval([secret[p]] + rows[p], Byte(picks[i] + 1))
  {
    hide Eval, Byte;
    var shares := LegacyShares(secret, rows, picks);
    assert forall s | s in shares :: |s| == 1 + |secret|;
    forall i, j | 0 <= i < j < |shares| ensures Ids(shares)[i] != Ids(shares)[j] {
      ShareIds(picks, i, j);
    }
  }

  lemma LegacyRecovers(secret: Bytes, rows: seq<Bytes>, threshold: nat, picks: seq<nat>)
    requires ValidRows(rows, threshold, |secret|) && DistinctPicks(picks, 255) && |picks| >= threshold >= 2
    ensures var shares := LegacyShares(secret, rows, picks);
            (forall s | s in shares :: |s| == 1 + |secret|) && Recovered(shares, 1, |secret|) == secret
  {
    hide Eval, Byte, Interpolated, LegacyShare;
    LegacyFormat(secret, rows, threshold, picks);
    var shares := LegacyShares(secret, rows, picks);
    forall p | 0 <= p < |secret| ensures Recovered(shares, 1, |secret|)[p] == secret[p] {
      var c, points := [secret[p]] + rows[p], PointsAt(shares, 1 + p);
      assert Xs(points) == Ids(shares);
      forall i | 0 <= i < |points| ensures Eval(c, points[i].x) == points[i].y {
        assert shares[i][0] == Byte(picks[i] + 1) by { assert shares[i] == LegacyShare(secret, rows, Byte(picks[i] + 1)); LegacyId(secret, rows, Byte(picks[i] + 1)); }
      }
      InterpolatedIsEval(points, c, 0);
      EvalAtZero(c);
    }
  }

  lemma LegacyId(secret: Bytes, rows: seq<Bytes>, id: bv8)
    requires |rows| == |secret|
    ensures LegacyShare(secret, rows, id)[0] == id
  {}

  /** Read as V2, legacy shares give at most seven bytes less than they hold. */
  lemma MarkedIsNotSecret(hash: Hash, secret: Bytes, shares: seq<Bytes>)
    requires |shares| >= 2 && [] !in shares && Distinct(Ids(shares))
    requires forall s | s in shares :: |s| == 1 + |secret| && IsV2(s)
    ensures Combined(hash, shares) != Ok(secret)
  {
    hide IsV2, Recovered, Distinct, Ids, Checksum;
    assert shares[0] in shares;
    if |shares[0]| >= 4 {
      var payload := Recovered(shares, 4, |shares[0]| - 4);
      assert |Tail(payload)| < |secret|;
    }
  }

  /** Legacy shares still combine to the secret, unverified, exactly when no shard happens to begin
      with the V2 marker; when only some do, the set is refused as mixed. */
  lemma CombineOfLegacy(hash: Hash, secret: Bytes, rows: seq<Bytes>, threshold: nat, picks: seq<nat>)
    requires ValidRows(rows, threshold, |secret|) && DistinctPicks(picks, 255) && |picks| >= threshold >= 2
    ensures var shares := LegacyShares(secret, rows, picks);
            var marked := exists s | s in shares :: IsV2(s);
            && (Combined(hash, shares) == Ok(secret) <==> !marked)
            && (marked && (exists s | s in shares :: !IsV2(s)) ==> Combined(hash, shares) == Err(MixedFormats))
  {
    hide Eval, IsV2, Recovered, LegacyShares, Distinct, Ids, Checksum;
    LegacyFormat(secret, rows, threshold, picks);
    LegacyRecovers(secret, rows, threshold, picks);
    var shares := LegacyShares(secret, rows, picks);
    assert shares[0] in shares;
    if forall s | s in shares :: IsV2(s) {
      MarkedIsNotSecret(hash, secret, shares);
    }
  }

  lemma EvalLine(c: bv8, d: bv8, x: bv8)
    ensures Eval([c, d], x) == Add(Mul(d, x), c)
  {
    hide Add, Mul;
    assert [c, d][1..] == [d] && [d][1..] == [];
    assert Eval([d], x) == Add(Mul(Eval([], x), x), d) && Eval([], x) == 0;
    MulOneZero(x);
    AddLaws(d, 0, 0);
  }

  /** It happens: of the first two shares of this two-byte secret only one begins with the marker. */
  lemma LegacySharesMixed(hash: Hash)
    ensures var secret, rows, picks := [0x57, 0x32], [[1], [0]], [0, 1];
            && ValidRows(rows, 2, |secret|) && DistinctPicks(picks, 255)
            && Combined(hash, LegacyShares(secret, rows, picks)) == Err(MixedFormats)
  {
    hide Eval, Mul, Add, Shard, Recovered, Checksum, LegacyShare, Combined, IsV2, Byte;
    var secret: Bytes, rows: seq<Bytes>, picks: seq<nat> := [0x57, 0x32], [[1], [0]], [0, 1];
    assert ValidRows(rows, 2, |secret|) && DistinctPicks(picks, 255);
    var shares := LegacyShares(secret, rows, picks);
    TwoShares(secret, rows);
    TwoIds();
    assert shares[0] in shares && shares[1] in shares;
    CombineOfLegacy(hash, secret, rows, 2, picks);
  }

  lemma TwoShares(secret: Bytes, rows: seq<Bytes>)
    requires secret == [0x57, 0x32] && rows == [[1], [0]]
    ensures IsV2(LegacyShare(secret, rows, 1)) && !IsV2(LegacyShare(secret, rows, 2))
  {
    hide Eval, Mul, Add, LegacyShare;
    LineShare(secret, rows, 1);
    LineShare(secret, rows, 2);
    ProductsWithOneAndZero();
    assert LegacyShare(secret, rows, 1)[1..3] == MAGIC;
    assert LegacyShare(secret, rows, 2)[1..3][0] != MAGIC[0];
  }

  lemma TwoIds()
    ensures Byte(0 + 1) == 1 && Byte(1 + 1) == 2
  {}

  lemma ProductsWithOneAndZero()
    ensures Add(Mul(1, 1), 0x57) == 0x56 && Add(Mul(1, 2), 0x57) == 0x55
    ensures Add(Mul(0, 1), 0x32) == 0x32 && Add(Mul(0, 2), 0x32) == 0x32
  {
    MulOneZero(1);
    MulOneZero(2);
    hide Mul;
  }

  lemma LineShare(secret: Bytes, rows: seq<Bytes>, id: bv8)
    requires |secret| == |rows| == 2 && |rows[0]| == |rows[1]| == 1
    ensures LegacyShare(secret, rows, id) ==
            [id, Add(Mul(rows[0][0], id), secret[0]), Add(Mul(rows[1][0], id), secret[1])]
  {
    hide Add, Mul, Eval;
    EvalLine(secret[0], rows[0][0], id);
    EvalLine(secret[1], rows[1][0], id);
    assert [secret[0]] + rows[0] == [secret[0], rows[0][0]] && [secret[1]] + rows[1] == [secret[1], rows[1][0]];
  }
}
