/** Replacing the generated region of a page, between two sentinels, and the gate that checks it. */
module Splice {
  import opened Wrappers

  // The sentinels, in pieces they share or that tell them apart.
  const OPENING := "<!-- "
  const BEGIN_TAIL := "BEGIN GENERATED DEPENDENCY"
  const BEGIN_PAGE := " INVENTORY (scripts/gen"
  const BEGIN_FILE := "_third_party_notices.py) -->"
  const END_TAIL := "END GENERATED DEPENDENCY"
  const END_PAGE := " INVENTORY -->"

  const BEGIN := OPENING + BEGIN_TAIL + BEGIN_PAGE + BEGIN_FILE
  const END := OPENING + END_TAIL + END_PAGE

  datatype Error = OneSentinel | NotFound

  predicate OccursAt(s: string, pattern: string, i: nat) {
    i + |pattern| <= |s| && s[i..i + |pattern|] == pattern
  }

  /** str.index from a position on. */
  function IndexOf(s: string, pattern: string, from: nat): (r: Option<nat>)
    requires pattern != []
    ensures r.Some? ==> from <= r.value && r.value + |pattern| <= |s|
    decreases |s| - from
  {
    if from >= |s| then None
    else if OccursAt(s, pattern, from) then Some(from)
    else IndexOf(s, pattern, from + 1)
  }

  /** It is the first occurrence. */
  lemma {:induction false} IndexOfIsFirst(s: string, pattern: string, from: nat)
    requires pattern != []
    ensures var r := IndexOf(s, pattern, from);
            && (r.Some? ==> OccursAt(s, pattern, r.value))
            && forall i | from <= i && (r.None? || i < r.value) :: !OccursAt(s, pattern, i)
    decreases |s| - from
  {
    if from < |s| && !OccursAt(s, pattern, from) {
      IndexOfIsFirst(s, pattern, from + 1);
    }
  }

  function SpliceBlock(doc: string, block: string): Result<string, Error> {
    if IndexOf(doc, BEGIN, 0).Some? != IndexOf(doc, END, 0).Some? then Err(OneSentinel)
    else match IndexOf(doc, BEGIN, 0)
         case None => Err(NotFound)
         case Some(start) =>
           match IndexOf(doc, END, start)
           case None => Err(NotFound)
           case Some(stop) => Ok(doc[..start] + block + doc[stop + |END|..])
  }

  /** Begins with BEGIN, and contains END only at its end. */
  ghost predicate WellShaped(block: string) {
    && BEGIN <= block && |block| >= |END|
    && OccursAt(block, END, |block| - |END|)
    && forall i | 0 <= i < |block| - |END| :: !OccursAt(block, END, i)
  }

  /** No two occurrences can overlap: the first character occurs nowhere else. */
  ghost predicate StartsUniquely(pattern: string) {
    pattern != [] && forall k | 0 < k < |pattern| :: pattern[k] != pattern[0]
  }

  lemma BeginPieces()
    ensures '<' !in BEGIN_TAIL && '<' !in BEGIN_PAGE
  {}

  lemma BeginFile()
    ensures '<' !in BEGIN_FILE
  {}

  lemma EndPieces()
    ensures '<' !in END_TAIL && '<' !in END_PAGE
  {}

  lemma PiecesHaveNoBracket()
    ensures '<' !in BEGIN_TAIL && '<' !in BEGIN_PAGE && '<' !in BEGIN_FILE && '<' !in END_TAIL && '<' !in END_PAGE
    ensures OPENING[0] == '<' && |OPENING| == 5 && '<' !in OPENING[1..]
    ensures BEGIN_TAIL[0] == 'B' && END_TAIL[0] == 'E' && |END_TAIL| + |END_PAGE| <= |BEGIN_TAIL| + |BEGIN_PAGE|
  {
    BeginPieces();
    BeginFile();
    EndPieces();
    assert OPENING[1..] == "!-- ";
  }

  lemma SentinelsStartUniquely()
    ensures StartsUniquely(BEGIN) && StartsUniquely(END)
    ensures 5 < |END| <= |BEGIN| && BEGIN[0] == END[0] == '<' && BEGIN[5] != END[5]
  {
    PiecesHaveNoBracket();
    NoBracketAfterFirst(BEGIN_TAIL + BEGIN_PAGE + BEGIN_FILE);
    NoBracketAfterFirst(END_TAIL + END_PAGE);
    assert BEGIN == OPENING + (BEGIN_TAIL + BEGIN_PAGE + BEGIN_FILE);
    assert END == OPENING + (END_TAIL + END_PAGE);
  }

  lemma NoBracketAfterFirst(rest: string)
    requires '<' !in rest && OPENING[0] == '<' && '<' !in OPENING[1..]
    ensures StartsUniquely(OPENING + rest) && (OPENING + rest)[0] == '<'
  {
    var p := OPENING + rest;
    assert p[1..] == OPENING[1..] + rest;
    forall k | 0 < k < |p| ensures p[k] != p[0] {
      assert p[k] == p[1..][k - 1] && p[1..][k - 1] in p[1..];
    }
  }

  // ----- where the sentinels are found after splicing

  lemma OccurrenceChars(s: string, pattern: string, i: nat)
    ensures OccursAt(s, pattern, i) ==> i + |pattern| <= |s| && forall k | 0 <= k < |pattern| :: pattern[k] == s[i + k]
  {
    if OccursAt(s, pattern, i) {
      assert forall k | 0 <= k < |pattern| :: pattern[k] == s[i..i + |pattern|][k];
    }
  }

  lemma FirstCharOnlyAtStart(s: string, pattern: string, i: nat)
    requires StartsUniquely(pattern) && OccursAt(s, pattern, i)
    ensures forall m | i < m < i + |pattern| :: s[m] != pattern[0]
  {
    OccurrenceChars(s, pattern, i);
    forall m | i < m < i + |pattern| ensures s[m] != pattern[0] {
      assert pattern[m - i] == s[i + (m - i)];
    }
  }

  /** An occurrence cannot straddle a place where its own first character stands. */
  lemma NoStraddle(s: string, pattern: string, i: nat, seam: nat)
    requires StartsUniquely(pattern) && OccursAt(s, pattern, i) && i < seam < |s| && s[seam] == pattern[0]
    ensures i + |pattern| <= seam
  {
    FirstCharOnlyAtStart(s, pattern, i);
  }

  lemma OccursInside(s: string, t: string, pattern: string, i: nat, at: nat)
    requires at + |t| <= |s| && s[at..at + |t|] == t && at <= i && i + |pattern| <= at + |t|
    ensures OccursAt(s, pattern, i) <==> OccursAt(t, pattern, i - at)
  {
    var k := i - at;
    forall m | k <= m < k + |pattern| ensures t[m] == s[at + m] {
      assert t[m] == s[at..at + |t|][m];
    }
    assert t[k..k + |pattern|] == s[i..i + |pattern|];
  }

  /** A position where the pattern occurs and before which it does not is the one found. */
  lemma FoundAt(s: string, pattern: string, from: nat, at: nat)
    requires pattern != [] && from <= at && OccursAt(s, pattern, at)
    requires forall i | from <= i < at :: !OccursAt(s, pattern, i)
    ensures IndexOf(s, pattern, from) == Some(at)
  {
    IndexOfIsFirst(s, pattern, from);
  }

  lemma BeginFound(doc: string, block: string, start: nat, rest: string)
    requires BEGIN <= block && start <= |doc|
    requires forall i | 0 <= i < start :: !OccursAt(doc, BEGIN, i)
    ensures IndexOf(doc[..start] + block + rest, BEGIN, 0) == Some(start)
  {
    SentinelsStartUniquely();
    hide BEGIN, END, IndexOf;
    var page := doc[..start] + block + rest;
    assert page[..start] == doc[..start] && page[start..start + |BEGIN|] == block[..|BEGIN|] == BEGIN;
    assert page[start] == block[0] == BEGIN[0];
    forall i | 0 <= i < start ensures !OccursAt(page, BEGIN, i) {
      if OccursAt(page, BEGIN, i) {
        NoStraddle(page, BEGIN, i, start);
        OccursInside(page, doc[..start], BEGIN, i, 0);
        OccursInside(doc, doc[..start], BEGIN, i, 0);
      }
    }
    FoundAt(page, BEGIN, 0, start);
  }

  lemma EndFound(before: string, block: string, rest: string)
    requires WellShaped(block)
    ensures IndexOf(before + block + rest, END, |before|) == Some(|before| + |block| - |END|)
    ensures IndexOf(before + block + rest, END, 0).Some?
  {
    SentinelsStartUniquely();
    hide BEGIN, END, IndexOf;
    var page, start := before + block + rest, |before|;
    assert page[start..start + |block|] == block;
    var last := start + |block| - |END|;
    OccursInside(page, block, END, last, start);
    forall i | start <= i < last ensures !OccursAt(page, END, i) {
      OccursInside(page, block, END, i, start);
    }
    FoundAt(page, END, start, last);
    IndexOfIsFirst(page, END, 0);
  }

  /** Splicing is idempotent and keeps everything before and after the region; the result is the page
      with exactly that region replaced. */
  lemma SpliceTwice(doc: string, block: string)
    requires WellShaped(block) && SpliceBlock(doc, block).Ok?
    ensures var start := IndexOf(doc, BEGIN, 0).value;
            var stop := IndexOf(doc, END, start).value + |END|;
            var page := SpliceBlock(doc, block).value;
            && page == doc[..start] + block + doc[stop..]
            && SpliceBlock(page, block) == Ok(page)
  {
    SentinelsStartUniquely();
    hide BEGIN, END, IndexOf, OccursAt, StartsUniquely;
    var start := IndexOf(doc, BEGIN, 0).value;
    var stop := IndexOf(doc, END, start).value + |END|;
    var page := doc[..start] + block + doc[stop..];
    IndexOfIsFirst(doc, BEGIN, 0);
    BeginFound(doc, block, start, doc[stop..]);
    EndFound(doc[..start], block, doc[stop..]);
    BlockHoldsEnd(block);
    hide WellShaped;
    assert page[..start] == doc[..start] && page[start + |block|..] == doc[stop..];
  }

  lemma BlockHoldsEnd(block: string)
    requires WellShaped(block)
    ensures |block| >= |END|
  {}

  // ----- the gate

  datatype Problem = NoBlock | Unspliceable | StaleBlock

  /** The block half of `check`, on a page that may or may not be required to carry the block. */
  function CheckBlock(doc: string, block: string, required: bool): Option<Problem> {
    if IndexOf(doc, BEGIN, 0).None? || IndexOf(doc, END, 0).None? then (if required then Some(NoBlock) else None)
    else match SpliceBlock(doc, block)
         case Err(_) => Some(Unspliceable)
         case Ok(page) => if page != doc then Some(StaleBlock) else None
  }

  /** What splicing writes passes the gate. */
  lemma SplicedPasses(doc: string, block: string, required: bool)
    requires WellShaped(block) && SpliceBlock(doc, block).Ok?
    ensures CheckBlock(SpliceBlock(doc, block).value, block, required) == None
  {
    SentinelsStartUniquely();
    hide BEGIN, END, WellShaped, IndexOf, OccursAt;
    SpliceTwice(doc, block);
    if IndexOf(SpliceBlock(doc, block).value, BEGIN, 0).Some? {
      IndexOfMonotone(SpliceBlock(doc, block).value, END, 0, IndexOf(SpliceBlock(doc, block).value, BEGIN, 0).value);
    }
  }

  lemma IndexOfMonotone(s: string, pattern: string, from: nat, later: nat)
    requires pattern != [] && from <= later && IndexOf(s, pattern, later).Some?
    ensures IndexOf(s, pattern, from).Some?
  {
    IndexOfIsFirst(s, pattern, later);
    IndexOfIsFirst(s, pattern, from);
    hide IndexOf;
  }

  /** On a page with both sentinels the gate passes exactly when the region, from BEGIN to the first
      END after it, is the block. */
  lemma PassesExactly(doc: string, block: string, required: bool)
    requires IndexOf(doc, BEGIN, 0).Some? && IndexOf(doc, END, 0).Some?
    ensures var start := IndexOf(doc, BEGIN, 0).value;
            CheckBlock(doc, block, required) == None <==>
            IndexOf(doc, END, start).Some? && doc[start..IndexOf(doc, END, start).value + |END|] == block
  {
    SentinelsStartUniquely();
    hide BEGIN, END, IndexOf;
    var start := IndexOf(doc, BEGIN, 0).value;
    var found := IndexOf(doc, END, start);
    if found.Some? {
      var stop := found.value + |END|;
      var region := doc[start..stop];
      assert doc == doc[..start] + region + doc[stop..];
      var page := doc[..start] + block + doc[stop..];
      if page == doc {
        assert |block| == |region|;
        assert block == page[start..start + |block|] == region;
      }
    }
  }

  predicate Contains(s: string, pattern: string) { exists i | 0 <= i < |s| :: OccursAt(s, pattern, i) }

  lemma FoundExactly(s: string, pattern: string, from: nat)
    requires pattern != []
    ensures IndexOf(s, pattern, from).Some? <==> exists i | from <= i < |s| :: OccursAt(s, pattern, i)
  {
    IndexOfIsFirst(s, pattern, from);
    hide IndexOf;
    if IndexOf(s, pattern, from).Some? {
      assert OccursAt(s, pattern, IndexOf(s, pattern, from).value);
    }
  }

  lemma HasSentinels(doc: string)
    ensures IndexOf(doc, BEGIN, 0).Some? <==> Contains(doc, BEGIN)
    ensures IndexOf(doc, END, 0).Some? <==> Contains(doc, END)
  {
    SentinelsStartUniquely();
    hide BEGIN, END, IndexOf, OccursAt, StartsUniquely;
    FoundExactly(doc, BEGIN, 0);
    FoundExactly(doc, END, 0);
  }

  /** What splicing refuses: one sentinel without the other, and a page where no END follows the first
      BEGIN; and what the gate says of a page without the block: a problem exactly where the block is
      required. */
  lemma RefusesExactly(doc: string, block: string, required: bool)
    ensures IndexOf(doc, BEGIN, 0).Some? <==> Contains(doc, BEGIN)
    ensures SpliceBlock(doc, block) == Err(OneSentinel) <==> Contains(doc, BEGIN) != Contains(doc, END)
    ensures SpliceBlock(doc, block).Ok? <==>
            Contains(doc, BEGIN) && Contains(doc, END) && IndexOf(doc, END, IndexOf(doc, BEGIN, 0).value).Some?
    ensures CheckBlock(doc, block, required) == Some(NoBlock) <==> required && !(Contains(doc, BEGIN) && Contains(doc, END))
    ensures CheckBlock(doc, block, required) == Some(Unspliceable) <==>
            Contains(doc, BEGIN) && Contains(doc, END) && IndexOf(doc, END, IndexOf(doc, BEGIN, 0).value).None?
    ensures !required && !(Contains(doc, BEGIN) && Contains(doc, END)) ==> CheckBlock(doc, block, required) == None
  {
    SentinelsStartUniquely();
    hide BEGIN, END, IndexOf, Contains, StartsUniquely;
    HasSentinels(doc);
  }

  // ----- the shape of the rendered block

  /** The lines of the block joined: the sentinels are its first and last line. */
  function Rendered(body: string): string { BEGIN + "\n" + body + "\n" + END }

  lemma Layout(first: string, body: string, last: string)
    ensures var block, at := first + "\n" + body + "\n" + last, |first| + 1;
            && |block| == at + |body| + 1 + |last|
            && block[..|first|] == first && block[|first|] == '\n'
            && block[at..at + |body|] == body && block[at + |body|] == '\n'
            && block[at + |body| + 1..] == last
  {}

  lemma EndLastChar()
    ensures END != [] && END[|END| - 1] != '\n'
  {
    var k := |END_PAGE| - 1;
    assert END_PAGE[k] == '>';
    assert END[|OPENING| + |END_TAIL| + k] == END_PAGE[k];
  }

  /** END occurs in a rendered block only inside its rows, or as its last line: no occurrence
      straddles the seams. */
  lemma RenderedOccurs(body: string, i: nat)
    requires OccursAt(Rendered(body), END, i) && i < |BEGIN| + 2 + |body|
    ensures |BEGIN| + 1 <= i && i + |END| <= |BEGIN| + 1 + |body| && OccursAt(body, END, i - |BEGIN| - 1)
  {
    SentinelsStartUniquely();
    EndLastChar();
    Layout(BEGIN, body, END);
    hide BEGIN, END, OccursAt, StartsUniquely;
    var block, at := Rendered(body), |BEGIN| + 1;
    var last := at + |body| + 1;
    assert block[last] == block[last..][0];
    NoStraddle(block, END, i, last);
    OccurrenceChars(block, END, i);
    OccurrenceEnd(block, END, i);
    assert i + |END| != last;
    if i < |BEGIN| {
      FirstOccursOnce(block, i);
      assert false;
    }
    OccursInside(block, body, END, i, at);
  }

  lemma FirstOccursOnce(block: string, i: nat)
    requires BEGIN <= block && i < |BEGIN|
    ensures !OccursAt(block, END, i)
  {
    SentinelsStartUniquely();
    hide BEGIN, END;
    OccurrenceChars(block, END, i);
    assert block[i] == BEGIN[i] && block[5] == BEGIN[5];
  }

  lemma OccurrenceEnd(s: string, pattern: string, i: nat)
    requires pattern != [] && OccursAt(s, pattern, i)
    ensures i + |pattern| <= |s| && s[i + |pattern| - 1] == pattern[|pattern| - 1] && s[i] == pattern[0]
  {
    OccurrenceChars(s, pattern, i);
    var k := |pattern| - 1;
    assert pattern[k] == s[i + k];
  }

  lemma RenderedHolds(body: string, i: nat)
    requires i < |body| && OccursAt(body, END, i)
    ensures OccursAt(Rendered(body), END, |BEGIN| + 1 + i)
  {
    Layout(BEGIN, body, END);
    hide BEGIN, END;
    OccursInside(Rendered(body), body, END, |BEGIN| + 1 + i, |BEGIN| + 1);
  }

  lemma RenderedEnds(body: string)
    ensures var block := Rendered(body);
            BEGIN <= block && |block| == |BEGIN| + 2 + |body| + |END| && OccursAt(block, END, |block| - |END|)
  {
    Layout(BEGIN, body, END);
    hide BEGIN, END;
    var block, last := Rendered(body), |BEGIN| + 2 + |body|;
    assert block[last..last + |END|] == block[last..] == END;
  }

  /** A rendered block is well shaped exactly when none of its rows contains END. */
  lemma RenderedIsWellShaped(body: string)
    ensures WellShaped(Rendered(body)) <==> forall i | 0 <= i < |body| :: !OccursAt(body, END, i)
  {
    hide BEGIN, END, OccursAt, Rendered;
    RenderedEnds(body);
    forall i | 0 <= i < |body| && OccursAt(body, END, i) ensures OccursAt(Rendered(body), END, |BEGIN| + 1 + i) {
      RenderedHolds(body, i);
    }
    forall i | 0 <= i < |BEGIN| + 2 + |body| && OccursAt(Rendered(body), END, i)
      ensures i >= |BEGIN| + 1 && i - |BEGIN| - 1 < |body| && OccursAt(body, END, i - |BEGIN| - 1)
    {
      EndNotEmpty();
      RenderedOccurs(body, i);
    }
  }

  lemma EndNotEmpty()
    ensures |END| > 0
  {}
}
