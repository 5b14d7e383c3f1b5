/** The loop that collapses blank lines at the end of the reference generator: replace three newlines
    by two until there are no three left. */
module BlankLines {
  import opened Sequences

  const NL := '\n'

  /** The length of the run of newlines at the start of s. */
  function Run(s: string): (n: nat)
    ensures n <= |s|
    ensures forall i | 0 <= i < n :: s[i] == NL
    ensures n < |s| ==> s[n] != NL
  {
    if s != [] && s[0] == NL then 1 + Run(s[1..]) else 0
  }

  predicate StartsTriple(s: string) { |s| >= 3 && s[0] == NL && s[1] == NL && s[2] == NL }

  predicate HasTriple(s: string) { s != [] && (StartsTriple(s) || HasTriple(s[1..])) }

  /** str.replace: non-overlapping matches, left to right. */
  function Replaced(s: string): string {
    if s == [] then []
    else if StartsTriple(s) then [NL, NL] + Replaced(s[3..])
    else [s[0]] + Replaced(s[1..])
  }

  /** What the loop is for: every maximal run of newlines clamped to two, all else in order. */
  function ClampedRuns(s: string): string
    decreases |s|
  {
    if s == [] then []
    else if s[0] != NL then [s[0]] + ClampedRuns(s[1..])
    else Repeat(NL, if Run(s) <= 2 then Run(s) else 2) + ClampedRuns(s[Run(s)..])
  }

  /** The same in one pass over the characters, after `seen` newlines just kept. */
  function Clamped(s: string, seen: nat): string {
    if s == [] then []
    else if s[0] != NL then [s[0]] + Clamped(s[1..], 0)
    else if seen < 2 then [NL] + Clamped(s[1..], seen + 1)
    else Clamped(s[1..], seen)
  }

  /** The newlines still kept of a run of n, after `seen` of them. */
  function Left(seen: nat, n: nat): string
    requires seen <= 2
  {
    Repeat(NL, if seen + n <= 2 then n else 2 - seen)
  }

  lemma LeftStep(seen: nat, n: nat)
    requires seen <= 2 && n > 0
    ensures Left(seen, n) == if seen < 2 then [NL] + Left(seen + 1, n - 1) else Left(2, n - 1)
  {}

  lemma NoneLeft(seen: nat)
    requires seen <= 2
    ensures Left(seen, 0) == []
  {}

  lemma RunStep(s: string)
    requires s != []
    ensures Run(s) == if s[0] == NL then 1 + Run(s[1..]) else 0
    ensures s[0] == NL ==> s[1..][Run(s[1..])..] == s[Run(s)..]
  {}

  lemma ClampedStep(s: string, seen: nat)
    requires s != []
    ensures Clamped(s, seen) ==
            if s[0] != NL then [s[0]] + Clamped(s[1..], 0)
            else if seen < 2 then [NL] + Clamped(s[1..], seen + 1)
            else Clamped(s[1..], seen)
  {}

  lemma ClampedRunsStep(s: string)
    requires s != [] && s[0] != NL
    ensures ClampedRuns(s) == [s[0]] + ClampedRuns(s[1..])
  {}

  lemma ClampedRunsFrom(s: string)
    ensures ClampedRuns(s) == Left(0, Run(s)) + ClampedRuns(s[Run(s)..])
  {
    if s == [] || s[0] != NL {
      assert s[0..] == s;
    }
  }

  lemma {:induction false} ClampedFrom(s: string, seen: nat)
    requires seen <= 2
    ensures Clamped(s, seen) == Left(seen, Run(s)) + ClampedRuns(s[Run(s)..])
    decreases |s|
  {
    hide Clamped, ClampedRuns, Run, Left;
    if s == [] {
      ClampedNothing(seen);
    } else {
      RunStep(s);
      ClampedStep(s, seen);
      if s[0] == NL {
        ClampedFrom(s[1..], if seen < 2 then seen + 1 else 2);
        LeftStep(seen, Run(s));
        var rest := ClampedRuns(s[Run(s)..]);
        assert seen < 2 ==> [NL] + (Left(seen + 1, Run(s) - 1) + rest) == ([NL] + Left(seen + 1, Run(s) - 1)) + rest;
      } else {
        ClampedFrom(s[1..], 0);
        ClampedRunsFrom(s[1..]);
        ClampedRunsStep(s);
        NoneLeft(seen);
        assert s[0..] == s && [] + ClampedRuns(s) == ClampedRuns(s);
      }
    }
  }

  lemma ClampedNothing(seen: nat)
    requires seen <= 2
    ensures Clamped([], seen) == Left(seen, Run([])) + ClampedRuns([][Run([])..])
  {}

  /** The two readings of "clamped" are one. */
  lemma ClampedIsRuns(s: string)
    ensures Clamped(s, 0) == ClampedRuns(s)
  {
    ClampedFrom(s, 0);
    ClampedRunsFrom(s);
  }

  lemma ClampedTwo(r: string, seen: nat)
    requires seen <= 2
    ensures Clamped([NL, NL] + r, seen) == Repeat(NL, 2 - seen) + Clamped(r, 2)
  {
    var t := [NL, NL] + r;
    assert t[1..] == [NL] + r && t[1..][1..] == r;
    assert Clamped([NL] + r, 2) == Clamped(r, 2);
    assert Clamped([NL] + r, 1) == [NL] + Clamped(r, 2);
    assert Repeat(NL, 1) == [NL] && Repeat(NL, 2) == [NL, NL];
  }

  /** One replacement, of any runs however long, keeps the clamped text. */
  lemma {:induction false} ReplaceKeepsClamped(s: string, seen: nat)
    requires seen <= 2
    ensures Clamped(Replaced(s), seen) == Clamped(s, seen)
    decreases |s|
  {
    if StartsTriple(s) {
      ReplaceKeepsClamped(s[3..], 2);
      ClampedTwo(Replaced(s[3..]), seen);
      ClampedTwo([NL] + s[3..], seen);
      assert ([NL] + s[3..])[1..] == s[3..];
      assert s == [NL, NL] + ([NL] + s[3..]);
    } else if s != [] {
      ReplaceKeepsClamped(s[1..], if s[0] != NL then 0 else if seen < 2 then seen + 1 else 2);
      assert Replaced(s)[1..] == Replaced(s[1..]);
    }
  }

  lemma {:induction false} ReplaceShrinks(s: string)
    ensures |Replaced(s)| <= |s|
    ensures HasTriple(s) ==> |Replaced(s)| < |s|
    decreases |s|
  {
    if StartsTriple(s) {
      ReplaceShrinks(s[3..]);
    } else if s != [] {
      ReplaceShrinks(s[1..]);
    }
  }

  lemma {:induction false} NoTripleIsClamped(s: string, seen: nat)
    requires !HasTriple(s) && Run(s) + seen <= 2
    ensures Clamped(s, seen) == s
  {
    if s != [] {
      assert Run(s[1..]) <= 2;
      NoTripleIsClamped(s[1..], if s[0] == NL then seen + 1 else 0);
    }
  }

  /** The loop ends, and its result is the text with every run clamped. */
  method Collapse(text0: string) returns (text: string)
    ensures text == ClampedRuns(text0)
    ensures !HasTriple(text)
  {
    text := text0;
    while HasTriple(text)
      invariant Clamped(text, 0) == Clamped(text0, 0)
      decreases |text|
    {
      ReplaceKeepsClamped(text, 0);
      ReplaceShrinks(text);
      text := Replaced(text);
    }
    assert Run(text) <= 2;
    NoTripleIsClamped(text, 0);
    ClampedIsRuns(text0);
  }

  /** Collapsing a collapsed text changes nothing. */
  lemma ClampedTwice(s: string)
    ensures !HasTriple(ClampedRuns(s)) && ClampedRuns(ClampedRuns(s)) == ClampedRuns(s)
  {
    ClampedIsRuns(s);
    ClampedHasNoTriple(s, 0);
    ClampedIsRuns(ClampedRuns(s));
    assert Run(ClampedRuns(s)) <= 2;
    NoTripleIsClamped(ClampedRuns(s), 0);
  }

  lemma {:induction false} ClampedHasNoTriple(s: string, seen: nat)
    requires seen <= 2
    ensures !HasTriple(Clamped(s, seen)) && Run(Clamped(s, seen)) + seen <= 2
  {
    if s != [] {
      var next := if s[0] != NL then 0 else if seen < 2 then seen + 1 else 2;
      ClampedHasNoTriple(s[1..], next);
      var c, d := Clamped(s, seen), Clamped(s[1..], next);
      if s[0] != NL || seen < 2 {
        assert c[1..] == d;
      }
    }
  }
}
