/** Re-keying the manifest source: right-to-left key splices within lines, then bottom-up deletion of
    whole entries, against one simultaneous rewrite. Columns are character positions. */
module Rekey {
  import opened Wrappers

  type Lines = seq<string>

  /** A dict entry of the source: its key occupies [start, end) of line `line`, and the whole entry
      the lines [line, lastLine). */
  datatype Entry = Entry(line: nat, start: nat, end: nat, lastLine: nat, key: string)

  datatype Error = DifferentMeanings

  /** Replace [start, end) of a line by `text`. */
  datatype Edit = Edit(line: nat, start: nat, end: nat, text: string)

  /** Edits inside the text, each to the right of or below the one before, from a position on. */
  ghost predicate InOrder(lines: Lines, edits: seq<Edit>, line: nat, column: nat) {
    edits == [] ||
    var e := edits[0];
    && (line < e.line || (line == e.line && column <= e.start))
    && e.line < |lines| && e.start <= e.end <= |lines[e.line]|
    && InOrder(lines, edits[1..], e.line, e.end)
  }

  lemma InOrderFromStart(lines: Lines, edits: seq<Edit>, line: nat, column: nat)
    requires InOrder(lines, edits, line, column)
    ensures InOrder(lines, edits, 0, 0)
  {}

  // ----- splicing keys

  /** The edits that fall on line i, in order. */
  function EditsOn(edits: seq<Edit>, i: nat): seq<Edit> {
    if edits == [] then []
    else if edits[0].line == i then [edits[0]] + EditsOn(edits[1..], i)
    else EditsOn(edits[1..], i)
  }

  ghost predicate Ascending(line: string, on: seq<Edit>, from: nat) {
    && from <= |line|
    && (on == [] || (from <= on[0].start <= on[0].end <= |line| && Ascending(line, on[1..], on[0].end)))
  }

  /** All edits of a line at once, reading from column `from` on. */
  function Spliced(line: string, on: seq<Edit>, from: nat): string
    requires Ascending(line, on, from)
  {
    if on == [] then line[from..]
    else line[from..on[0].start] + on[0].text + Spliced(line, on[1..], on[0].end)
  }

  lemma AscendingFrom(line: string, on: seq<Edit>, column: nat)
    requires Ascending(line, on, column)
    ensures column <= |line| && Ascending(line, on, 0)
    ensures on != [] ==> column <= on[0].start <= on[0].end <= |line| && Ascending(line, on[1..], on[0].end)
  {}

  lemma SplicedNothing(line: string, column: nat)
    requires column <= |line|
    ensures Ascending(line, [], column) && Spliced(line, [], column) == line[column..]
  {}

  lemma SplicedStep(line: string, on: seq<Edit>, from: nat)
    requires on != [] && from <= on[0].start <= on[0].end <= |line| && Ascending(line, on[1..], on[0].end)
    ensures Ascending(line, on, from)
    ensures Spliced(line, on, from) == line[from..on[0].start] + (on[0].text + Spliced(line, on[1..], on[0].end))
  {
    assert Ascending(line, on, from);
    var a, b, c := line[from..on[0].start], on[0].text, Spliced(line, on[1..], on[0].end);
    assert (a + b) + c == a + (b + c);
  }

  lemma SplicedPrefix(line: string, on: seq<Edit>, column: nat)
    requires Ascending(line, on, column)
    ensures Ascending(line, on, 0) && |Spliced(line, on, 0)| >= column
    ensures Spliced(line, on, 0)[..column] == line[..column]
    ensures Spliced(line, on, 0)[column..] == Spliced(line, on, column)
  {
    hide Spliced, Ascending;
    AscendingFrom(line, on, column);
    if on == [] {
      SplicedNothing(line, 0);
      SplicedNothing(line, column);
    } else {
      var start, rest := on[0].start, on[0].text + Spliced(line, on[1..], on[0].end);
      assert line[0..start] == line[..column] + line[column..start];
      SplicedStep(line, on, 0);
      SplicedStep(line, on, column);
      PrefixOf(line[..column], line[column..start], rest);
    }
  }

  lemma PrefixOf(a: string, b: string, c: string)
    ensures var s := (a + b) + c; |s| >= |a| && s[..|a|] == a && s[|a|..] == b + c
  {}

  /** Splicing the leftmost edit into the line all later ones were spliced into. */
  lemma SpliceOne(line: string, on: seq<Edit>)
    requires on != [] && Ascending(line, on, 0)
    ensures Ascending(line, on[1..], 0)
    ensures var rest := Spliced(line, on[1..], 0);
            && on[0].start <= on[0].end <= |rest|
            && rest[..on[0].start] + on[0].text + rest[on[0].end..] == Spliced(line, on, 0)
  {
    SplicedPrefix(line, on[1..], on[0].end);
    var rest := Spliced(line, on[1..], 0);
    assert rest[..on[0].start] == rest[..on[0].end][..on[0].start];
  }

  lemma {:induction false} EditsOnAscending(lines: Lines, edits: seq<Edit>, line: nat, column: nat, i: nat)
    requires InOrder(lines, edits, line, column) && i < |lines|
    requires line == i ==> column <= |lines[i]|
    ensures line <= i ==> Ascending(lines[i], EditsOn(edits, i), if line == i then column else 0)
    ensures line > i ==> EditsOn(edits, i) == []
  {
    if edits != [] {
      var e := edits[0];
      EditsOnAscending(lines, edits[1..], e.line, e.end, i);
    }
  }

  /** Every line with all of its edits applied at once. */
  function SplicedLines(lines: Lines, edits: seq<Edit>): (r: Lines)
    requires InOrder(lines, edits, 0, 0)
    ensures |r| == |lines|
  {
    seq(|lines|, i requires 0 <= i < |lines| =>
      EditsOnAscending(lines, edits, 0, 0, i); Spliced(lines[i], EditsOn(edits, i), 0))
  }

  lemma SpliceNext(lines: Lines, edits: seq<Edit>)
    requires edits != [] && InOrder(lines, edits, 0, 0)
    ensures InOrder(lines, edits[1..], 0, 0)
    ensures var now, e := SplicedLines(lines, edits[1..]), edits[0];
            && e.line < |now| && e.start <= e.end <= |now[e.line]|
            && now[e.line := now[e.line][..e.start] + e.text + now[e.line][e.end..]] == SplicedLines(lines, edits)
  {
    hide Spliced, Ascending;
    var tail, e := edits[1..], edits[0];
    InOrderFromStart(lines, tail, e.line, e.end);
    var now, all := SplicedLines(lines, tail), SplicedLines(lines, edits);
    EditsOnAscending(lines, edits, 0, 0, e.line);
    assert EditsOn(edits, e.line) == [e] + EditsOn(tail, e.line);
    SpliceOne(lines[e.line], EditsOn(edits, e.line));
    forall i | 0 <= i < |lines| && i != e.line ensures now[i] == all[i] {
      EditsOnAscending(lines, edits, 0, 0, i);
      assert EditsOn(edits, i) == EditsOn(tail, i);
    }
  }

  lemma {:induction false} TailInOrder(lines: Lines, edits: seq<Edit>, line: nat, column: nat, k: nat)
    requires InOrder(lines, edits, line, column) && k <= |edits|
    ensures InOrder(lines, edits[k..], 0, 0)
  {
    if k == 0 {
      InOrderFromStart(lines, edits, line, column);
      assert edits[0..] == edits;
    } else {
      TailInOrder(lines, edits[1..], edits[0].line, edits[0].end, k - 1);
      assert edits[1..][k - 1..] == edits[k..];
    }
  }

  lemma NoEdits(lines: Lines)
    ensures SplicedLines(lines, []) == lines
  {}

  /** Right to left, so that earlier columns stay valid. */
  method ApplyEdits(lines0: Lines, edits: seq<Edit>) returns (lines: Lines)
    requires InOrder(lines0, edits, 0, 0)
    ensures lines == SplicedLines(lines0, edits)
  {
    hide InOrder, Spliced;
    lines := lines0;
    NoEdits(lines0);
    assert edits[|edits|..] == [];
    TailInOrder(lines0, edits, 0, 0, |edits|);
    for k := |edits| downto 0
      invariant InOrder(lines0, edits[k..], 0, 0)
      invariant lines == SplicedLines(lines0, edits[k..])
    {
      TailInOrder(lines0, edits, 0, 0, k);
      assert edits[k..][1..] == edits[k + 1..];
      SpliceNext(lines0, edits[k..]);
      var e := edits[k];
      lines := lines[e.line := lines[e.line][..e.start] + e.text + lines[e.line][e.end..]];
    }
    assert edits[0..] == edits;
  }

  // ----- deleting entries

  /** Entries on lines of their own, top to bottom, from a line on. */
  ghost predicate OwnLines(n: nat, gone: seq<Entry>, from: nat) {
    gone == [] ||
    (from <= gone[0].line < gone[0].lastLine <= n && OwnLines(n, gone[1..], gone[0].lastLine))
  }

  predicate Covers(gone: seq<Entry>, i: nat) {
    gone != [] && (gone[0].line <= i < gone[0].lastLine || Covers(gone[1..], i))
  }

  lemma {:induction false} NotCoveredAbove(n: nat, gone: seq<Entry>, from: nat, i: nat)
    requires OwnLines(n, gone, from) && i < from
    ensures !Covers(gone, i)
  {
    if gone != [] {
      NotCoveredAbove(n, gone[1..], gone[0].lastLine, i);
    }
  }

  /** The lines from `from` on that belong to no deleted entry. */
  function Kept(lines: Lines, gone: seq<Entry>, from: nat): Lines
    requires from <= |lines|
    decreases |lines| - from
  {
    if from == |lines| then []
    else (if Covers(gone, from) then [] else [lines[from]]) + Kept(lines, gone, from + 1)
  }

  lemma KeptStep(lines: Lines, gone: seq<Entry>, from: nat)
    requires from < |lines|
    ensures Kept(lines, gone, from) ==
            if Covers(gone, from) then Kept(lines, gone, from + 1) else [lines[from]] + Kept(lines, gone, from + 1)
  {
    hide Covers;
  }

  lemma KeptNothing(lines: Lines, gone: seq<Entry>)
    ensures Kept(lines, gone, |lines|) == []
  {}

  lemma SliceStep(lines: Lines, from: nat, until: nat, below: Lines)
    requires from < until <= |lines|
    ensures [lines[from]] + (lines[from + 1..until] + below) == lines[from..until] + below
  {}

  lemma {:induction false} KeptPlain(lines: Lines, gone: seq<Entry>, from: nat, until: nat)
    requires from <= until <= |lines| && forall i | from <= i < until :: !Covers(gone, i)
    ensures Kept(lines, gone, from) == lines[from..until] + Kept(lines, gone, until)
    decreases until - from
  {
    hide Covers, Kept;
    if from < until {
      KeptPlain(lines, gone, from + 1, until);
      KeptStep(lines, gone, from);
      SliceStep(lines, from, until, Kept(lines, gone, until));
    }
  }

  lemma {:induction false} KeptCovered(lines: Lines, gone: seq<Entry>, from: nat, until: nat)
    requires from <= until <= |lines| && forall i | from <= i < until :: Covers(gone, i)
    ensures Kept(lines, gone, from) == Kept(lines, gone, until)
    decreases until - from
  {
    hide Covers, Kept;
    if from < until {
      KeptCovered(lines, gone, from + 1, until);
      KeptStep(lines, gone, from);
    }
  }

  lemma {:induction false} KeptSame(lines: Lines, a: seq<Entry>, b: seq<Entry>, from: nat)
    requires from <= |lines| && forall i | from <= i < |lines| :: Covers(a, i) == Covers(b, i)
    ensures Kept(lines, a, from) == Kept(lines, b, from)
    decreases |lines| - from
  {
    hide Covers, Kept;
    if from < |lines| {
      KeptSame(lines, a, b, from + 1);
      KeptStep(lines, a, from);
      KeptStep(lines, b, from);
    } else {
      KeptNothing(lines, a);
      KeptNothing(lines, b);
    }
  }

  /** Deleting the topmost entry from the text all lower ones were deleted from. */
  lemma DeleteOne(lines: Lines, gone: seq<Entry>)
    requires gone != [] && OwnLines(|lines|, gone, 0)
    ensures var rest, e := Kept(lines, gone[1..], 0), gone[0];
            && e.line <= e.lastLine <= |rest|
            && rest[..e.line] + rest[e.lastLine..] == Kept(lines, gone, 0)
  {
    hide Kept;
    var tail, e := gone[1..], gone[0];
    forall i | 0 <= i < e.lastLine ensures !Covers(tail, i) {
      NotCoveredAbove(|lines|, tail, e.lastLine, i);
    }
    KeptPlain(lines, tail, 0, e.lastLine);
    KeptPlain(lines, gone, 0, e.line);
    KeptCovered(lines, gone, e.line, e.lastLine);
    KeptSame(lines, gone, tail, e.lastLine);
    var rest := Kept(lines, tail, 0);
    assert rest[..e.line] == lines[0..e.line] && rest[e.lastLine..] == Kept(lines, tail, e.lastLine);
  }

  lemma {:induction false} TailOwnLines(n: nat, gone: seq<Entry>, from: nat, k: nat)
    requires OwnLines(n, gone, from) && k <= |gone|
    ensures OwnLines(n, gone[k..], 0)
  {
    if k == 0 {
      assert gone[0..] == gone;
    } else {
      TailOwnLines(n, gone[1..], gone[0].lastLine, k - 1);
      assert gone[1..][k - 1..] == gone[k..];
    }
  }

  lemma NothingGone(lines: Lines)
    ensures Kept(lines, [], 0) == lines
  {
    KeptPlain(lines, [], 0, |lines|);
  }

  /** Bottom up, so that earlier line numbers stay valid. */
  method DeleteEntries(lines0: Lines, gone: seq<Entry>) returns (lines: Lines)
    requires OwnLines(|lines0|, gone, 0)
    ensures lines == Kept(lines0, gone, 0)
  {
    hide Kept, OwnLines;
    lines := lines0;
    NothingGone(lines0);
    assert gone[|gone|..] == [];
    for k := |gone| downto 0
      invariant lines == Kept(lines0, gone[k..], 0)
    {
      TailOwnLines(|lines0|, gone, 0, k);
      assert gone[k..][1..] == gone[k + 1..];
      DeleteOne(lines0, gone[k..]);
      lines := lines[..gone[k].line] + lines[gone[k].lastLine..];
    }
    assert gone[0..] == gone;
  }

  // ----- which entries collapse

  function NewKey(newkey: map<string, string>, key: string): string {
    if key in newkey then newkey[key] else key
  }

  /** Entry j is not the first to take its new key. */
  predicate Later(entries: seq<Entry>, newkey: map<string, string>, j: nat)
    requires j < |entries|
  {
    exists i | 0 <= i < j :: NewKey(newkey, entries[i].key) == NewKey(newkey, entries[j].key)
  }

  /** Two entries would share a new key and mean different things. */
  predicate Conflict(entries: seq<Entry>, newkey: map<string, string>, values: map<string, string>)
    requires forall e | e in entries :: e.key in values
  {
    exists a, b | a in entries && b in entries ::
      NewKey(newkey, a.key) == NewKey(newkey, b.key) && values[a.key] != values[b.key]
  }

  /** The old keys whose entries are deleted. The source keeps a set of keys, not of entries. */
  function Dropped(entries: seq<Entry>, newkey: map<string, string>): set<string> {
    set j | 0 <= j < |entries| && Later(entries, newkey, j) :: entries[j].key
  }

  function Gone(entries: seq<Entry>, drop: set<string>): seq<Entry> {
    if entries == [] then []
    else if entries[0].key in drop then [entries[0]] + Gone(entries[1..], drop)
    else Gone(entries[1..], drop)
  }

  /** The key splices of the surviving entries whose key changes, in source order. */
  function EditsOf(entries: seq<Entry>, newkey: map<string, string>, drop: set<string>, quote: string -> string): seq<Edit> {
    if entries == [] then []
    else
      var e := entries[0];
      var now := NewKey(newkey, e.key);
      var rest := EditsOf(entries[1..], newkey, drop, quote);
      if now != e.key && e.key !in drop then [Edit(e.line, e.start, e.end, quote(now))] + rest else rest
  }

  /** What the parser says of the entries: key spans inside their lines, one entry after the other,
      each on lines of its own. */
  ghost predicate Parsed(lines: Lines, entries: seq<Entry>, from: nat) {
    entries == [] ||
    var e := entries[0];
    && from <= e.line < e.lastLine <= |lines|
    && e.start <= e.end <= |lines[e.line]|
    && Parsed(lines, entries[1..], e.lastLine)
  }

  lemma {:induction false} EditsInOrder(lines: Lines, entries: seq<Entry>, newkey: map<string, string>, drop: set<string>, quote: string -> string, from: nat)
    requires Parsed(lines, entries, from)
    ensures InOrder(lines, EditsOf(entries, newkey, drop, quote), from, 0)
  {
    hide NewKey;
    if entries != [] {
      EditsInOrder(lines, entries[1..], newkey, drop, quote, entries[0].lastLine);
    }
  }

  lemma {:induction false} GoneOwnLines(lines: Lines, entries: seq<Entry>, drop: set<string>, from: nat)
    requires Parsed(lines, entries, from)
    ensures OwnLines(|lines|, Gone(entries, drop), from)
  {
    if entries != [] {
      GoneOwnLines(lines, entries[1..], drop, entries[0].lastLine);
    }
  }

  /** The simultaneous rewrite: every surviving key replaced, every deleted entry's lines left out,
      all other text as it was. */
  function Rekeyed(lines: Lines, entries: seq<Entry>, newkey: map<string, string>, quote: string -> string): Lines
    requires Parsed(lines, entries, 0)
  {
    var drop := Dropped(entries, newkey);
    EditsInOrder(lines, entries, newkey, drop, quote, 0);
    Kept(SplicedLines(lines, EditsOf(entries, newkey, drop, quote)), Gone(entries, drop), 0)
  }

  /** The old keys among the first n entries that take one new key, in order. */
  function Group(entries: seq<Entry>, newkey: map<string, string>, now: string, n: nat): (olds: seq<string>)
    requires n <= |entries|
  {
    if n == 0 then []
    else Group(entries, newkey, now, n - 1) + (if NewKey(newkey, entries[n - 1].key) == now then [entries[n - 1].key] else [])
  }

  /** Among the first n entries, one at position j takes the new key and has the old key o. */
  ghost predicate TakenBy(entries: seq<Entry>, newkey: map<string, string>, now: string, o: string, j: nat) {
    j < |entries| && entries[j].key == o && NewKey(newkey, o) == now
  }

  lemma {:induction false} GroupMember(entries: seq<Entry>, newkey: map<string, string>, now: string, n: nat, o: string)
    requires n <= |entries|
    ensures o in Group(entries, newkey, now, n) <==> exists j :: 0 <= j < n && TakenBy(entries, newkey, now, o, j)
  {
    hide NewKey;
    if n > 0 {
      GroupMember(entries, newkey, now, n - 1, o);
      assert TakenBy(entries, newkey, now, o, n - 1) <==> entries[n - 1].key == o && NewKey(newkey, o) == now;
    }
  }

  lemma {:induction false} GroupNonEmpty(entries: seq<Entry>, newkey: map<string, string>, now: string, n: nat)
    requires n <= |entries|
    ensures Group(entries, newkey, now, n) != [] <==> exists j | 0 <= j < n :: NewKey(newkey, entries[j].key) == now
  {
    hide NewKey;
    if n > 0 {
      GroupNonEmpty(entries, newkey, now, n - 1);
    }
  }

  /** The old keys at positions that are not the first of their group. */
  function LaterKeys(entries: seq<Entry>, newkey: map<string, string>, now: string, n: nat): seq<string>
    requires n <= |entries|
  {
    if n == 0 then []
    else LaterKeys(entries, newkey, now, n - 1)
         + (if NewKey(newkey, entries[n - 1].key) == now && Later(entries, newkey, n - 1) then [entries[n - 1].key] else [])
  }

  lemma {:induction false} GroupTail(entries: seq<Entry>, newkey: map<string, string>, now: string, n: nat)
    requires n <= |entries|
    ensures var olds := Group(entries, newkey, now, n);
            if olds == [] then LaterKeys(entries, newkey, now, n) == [] else olds[1..] == LaterKeys(entries, newkey, now, n)
  {
    hide NewKey, Later;
    if n > 0 {
      GroupTail(entries, newkey, now, n - 1);
      LaterIffStarted(entries, newkey, n);
    }
  }

  lemma LaterIffStarted(entries: seq<Entry>, newkey: map<string, string>, n: nat)
    requires 0 < n <= |entries|
    ensures Later(entries, newkey, n - 1) <==> Group(entries, newkey, NewKey(newkey, entries[n - 1].key), n - 1) != []
  {
    hide NewKey, Group;
    GroupNonEmpty(entries, newkey, NewKey(newkey, entries[n - 1].key), n - 1);
  }

  lemma {:induction false} LaterMember(entries: seq<Entry>, newkey: map<string, string>, now: string, n: nat, o: string)
    requires n <= |entries|
    ensures o in LaterKeys(entries, newkey, now, n) <==>
            exists j :: 0 <= j < n && TakenBy(entries, newkey, now, o, j) && Later(entries, newkey, j)
  {
    hide NewKey, Later;
    if n > 0 {
      LaterMember(entries, newkey, now, n - 1, o);
      assert TakenBy(entries, newkey, now, o, n - 1) <==> entries[n - 1].key == o && NewKey(newkey, o) == now;
    }
  }

  /** The groups of the first n entries, by new key. */
  ghost predicate Indexes(byNew: map<string, seq<string>>, entries: seq<Entry>, newkey: map<string, string>, n: nat)
    requires n <= |entries|
  {
    forall now ::
      Group(entries, newkey, now, n) == if now in byNew then byNew[now] else []
  }

  lemma IndexesNext(byNew: map<string, seq<string>>, entries: seq<Entry>, newkey: map<string, string>, n: nat)
    requires n < |entries| && Indexes(byNew, entries, newkey, n)
    ensures var e := entries[n];
            var now := NewKey(newkey, e.key);
            Indexes(byNew[now := (if now in byNew then byNew[now] else []) + [e.key]], entries, newkey, n + 1)
  {
    hide NewKey;
    var e := entries[n];
    var taken := NewKey(newkey, e.key);
    var next := byNew[taken := (if taken in byNew then byNew[taken] else []) + [e.key]];
    forall now ensures Group(entries, newkey, now, n + 1) == if now in next then next[now] else [] {
      assert Group(entries, newkey, now, n) == if now in byNew then byNew[now] else [];
    }
  }

  method GroupByNewKey(entries: seq<Entry>, newkey: map<string, string>) returns (byNew: map<string, seq<string>>)
    ensures Indexes(byNew, entries, newkey, |entries|)
    ensures forall now | now in byNew :: byNew[now] != []
  {
    hide NewKey, Indexes;
    byNew := map[];
    NoIndexes(entries, newkey);
    for i := 0 to |entries|
      invariant Indexes(byNew, entries, newkey, i)
      invariant forall now | now in byNew :: byNew[now] != []
    {
      IndexesNext(byNew, entries, newkey, i);
      var now := NewKey(newkey, entries[i].key);
      byNew := byNew[now := (if now in byNew then byNew[now] else []) + [entries[i].key]];
    }
  }

  lemma NoIndexes(entries: seq<Entry>, newkey: map<string, string>)
    ensures Indexes(map[], entries, newkey, 0)
  {}

  ghost predicate SameMeaning(olds: seq<string>, values: map<string, string>) {
    forall o, p | o in olds && p in olds :: o in values && p in values && values[o] == values[p]
  }

  /** Whether all old keys of a group mean the same. */
  method CheckGroup(olds: seq<string>, values: map<string, string>) returns (same: bool)
    requires forall o | o in olds :: o in values
    ensures same <==> SameMeaning(olds, values)
  {
    var vals := set o | o in olds :: values[o];
    if |vals| > 1 {
      ghost var u, v := TwoValues(vals);
      return false;
    }
    forall o, p | o in olds && p in olds ensures values[o] == values[p] {
      OneValue(vals, values[o], values[p]);
    }
    return true;
  }

  lemma ShortGroup(olds: seq<string>, values: map<string, string>)
    requires |olds| <= 1 && forall o | o in olds :: o in values
    ensures SameMeaning(olds, values)
  {}

  /** The old keys that are not first in one of these groups. */
  ghost predicate Collected(dropped: set<string>, byNew: map<string, seq<string>>, done: set<string>) {
    && done <= byNew.Keys && (forall now | now in byNew :: byNew[now] != [])
    && forall o :: o in dropped <==> exists now | now in done :: o in byNew[now][1..]
  }

  ghost predicate Agreeing(byNew: map<string, seq<string>>, done: set<string>, values: map<string, string>) {
    forall now | now in done :: now in byNew && SameMeaning(byNew[now], values)
  }

  lemma NothingCollected(byNew: map<string, seq<string>>, values: map<string, string>)
    requires forall now | now in byNew :: byNew[now] != []
    ensures Collected({}, byNew, {}) && Agreeing(byNew, {}, values)
  {}

  lemma CollectGroup(dropped: set<string>, byNew: map<string, seq<string>>, done: set<string>, now: string, values: map<string, string>)
    requires Collected(dropped, byNew, done) && Agreeing(byNew, done, values)
    requires now in byNew && SameMeaning(byNew[now], values)
    ensures Collected(dropped + (set o | o in byNew[now][1..]), byNew, done + {now}) && Agreeing(byNew, done + {now}, values)
    ensures |byNew[now]| <= 1 ==> Collected(dropped, byNew, done + {now})
  {
    hide SameMeaning;
    if |byNew[now]| <= 1 {
      assert byNew[now][1..] == [];
    }
  }

  /** The keys to drop, or nothing when one new key would hold different meanings. */
  method PlanDrops(entries: seq<Entry>, newkey: map<string, string>, values: map<string, string>) returns (drop: Option<set<string>>)
    requires forall e | e in entries :: e.key in values
    ensures drop.None? <==> Conflict(entries, newkey, values)
    ensures drop.Some? ==> drop.value == Dropped(entries, newkey)
  {
    hide NewKey, Group, Later, Conflict, SameMeaning, Collected, Agreeing, Dropped;
    var byNew := GroupByNewKey(entries, newkey);
    var pending := byNew.Keys;
    var dropped: set<string> := {};
    ghost var done: set<string> := {};
    NothingCollected(byNew, values);
    while pending != {}
      invariant pending <= byNew.Keys && done == byNew.Keys - pending
      invariant Collected(dropped, byNew, done) && Agreeing(byNew, done, values)
      decreases |pending|
    {
      var now :| now in pending;
      var olds := byNew[now];
      assert olds == Group(entries, newkey, now, |entries|);
      GroupInValues(entries, newkey, values, now, |entries|);
      if |olds| > 1 {
        var same := CheckGroup(olds, values);
        if !same {
          ConflictFromGroup(entries, newkey, values, now);
          return None;
        }
        CollectGroup(dropped, byNew, done, now, values);
        dropped := dropped + (set o | o in olds[1..]);
      } else {
        ShortGroup(olds, values);
        CollectGroup(dropped, byNew, done, now, values);
      }
      pending := pending - {now};
      done := done + {now};
    }
    assert done == byNew.Keys;
    PlanIs(entries, newkey, values, byNew, dropped);
    return Some(dropped);
  }

  lemma PlanIs(entries: seq<Entry>, newkey: map<string, string>, values: map<string, string>, byNew: map<string, seq<string>>, dropped: set<string>)
    requires forall e | e in entries :: e.key in values
    requires Indexes(byNew, entries, newkey, |entries|)
    requires Collected(dropped, byNew, byNew.Keys) && Agreeing(byNew, byNew.Keys, values)
    ensures !Conflict(entries, newkey, values) && dropped == Dropped(entries, newkey)
  {
    hide NewKey, Group, Later, Conflict, SameMeaning, Indexes, Dropped;
    NoConflict(entries, newkey, values, byNew);
    DroppedIsTails(entries, newkey, byNew, dropped);
  }

  lemma {:induction false} GroupInValues(entries: seq<Entry>, newkey: map<string, string>, values: map<string, string>, now: string, n: nat)
    requires n <= |entries| && forall e | e in entries :: e.key in values
    ensures forall o | o in Group(entries, newkey, now, n) :: o in values
  {
    hide NewKey;
    if n > 0 {
      GroupInValues(entries, newkey, values, now, n - 1);
    }
  }

  lemma TwoValues(vals: set<string>) returns (u: string, v: string)
    requires |vals| > 1
    ensures u in vals && v in vals && u != v
  {
    u :| u in vals;
    var rest := vals - {u};
    assert vals == rest + {u};
    v :| v in rest;
  }

  lemma OneValue(vals: set<string>, u: string, v: string)
    requires u in vals && v in vals && |vals| <= 1
    ensures u == v
  {
    var rest := vals - {u};
    assert vals == rest + {u};
  }

  lemma ConflictFromGroup(entries: seq<Entry>, newkey: map<string, string>, values: map<string, string>, now: string)
    requires forall e | e in entries :: e.key in values
    requires !SameMeaning(Group(entries, newkey, now, |entries|), values)
    ensures Conflict(entries, newkey, values)
  {
    hide NewKey, Group;
    GroupInValues(entries, newkey, values, now, |entries|);
    var olds := Group(entries, newkey, now, |entries|);
    var o, p :| o in olds && p in olds && values[o] != values[p];
    GroupMember(entries, newkey, now, |entries|, o);
    GroupMember(entries, newkey, now, |entries|, p);
    var i :| 0 <= i < |entries| && TakenBy(entries, newkey, now, o, i);
    var j :| 0 <= j < |entries| && TakenBy(entries, newkey, now, p, j);
    assert entries[i] in entries && entries[j] in entries;
  }

  lemma NoConflict(entries: seq<Entry>, newkey: map<string, string>, values: map<string, string>, byNew: map<string, seq<string>>)
    requires forall e | e in entries :: e.key in values
    requires Indexes(byNew, entries, newkey, |entries|) && forall now | now in byNew :: byNew[now] != []
    requires forall now | now in byNew :: SameMeaning(byNew[now], values)
    ensures !Conflict(entries, newkey, values)
  {
    hide NewKey;
    forall a, b | a in entries && b in entries && NewKey(newkey, a.key) == NewKey(newkey, b.key)
      ensures values[a.key] == values[b.key]
    {
      var now := NewKey(newkey, a.key);
      var i :| 0 <= i < |entries| && entries[i] == a;
      var j :| 0 <= j < |entries| && entries[j] == b;
      GroupMember(entries, newkey, now, |entries|, a.key);
      GroupMember(entries, newkey, now, |entries|, b.key);
      assert TakenBy(entries, newkey, now, a.key, i) && TakenBy(entries, newkey, now, b.key, j);
      assert a.key in byNew[now] && b.key in byNew[now];
    }
  }

  lemma DroppedIsTails(entries: seq<Entry>, newkey: map<string, string>, byNew: map<string, seq<string>>, dropped: set<string>)
    requires Indexes(byNew, entries, newkey, |entries|) && forall now | now in byNew :: byNew[now] != []
    requires forall o :: o in dropped <==> exists now | now in byNew :: o in byNew[now][1..]
    ensures dropped == Dropped(entries, newkey)
  {
    hide NewKey, Later, Group, LaterKeys;
    forall o ensures o in dropped <==> o in Dropped(entries, newkey) {
      if o in dropped {
        var now :| now in byNew && o in byNew[now][1..];
        assert byNew[now] == Group(entries, newkey, now, |entries|);
        GroupTail(entries, newkey, now, |entries|);
        LaterMember(entries, newkey, now, |entries|, o);
      }
      if o in Dropped(entries, newkey) {
        var j :| 0 <= j < |entries| && Later(entries, newkey, j) && entries[j].key == o;
        var now := NewKey(newkey, o);
        GroupNonEmpty(entries, newkey, now, |entries|);
        GroupTail(entries, newkey, now, |entries|);
        LaterMember(entries, newkey, now, |entries|, o);
        assert TakenBy(entries, newkey, now, o, j);
        assert now in byNew && o in byNew[now][1..];
      }
    }
  }

  /** Refuses exactly on a conflict; otherwise the in-place splices and deletions give the
      simultaneous rewrite. */
  method RekeyManifest(lines0: Lines, entries: seq<Entry>, newkey: map<string, string>, values: map<string, string>, quote: string -> string)
    returns (result: Result<Lines, Error>)
    requires Parsed(lines0, entries, 0) && forall e | e in entries :: e.key in values
    ensures result.Err? <==> Conflict(entries, newkey, values)
    ensures result.Ok? ==> result.value == Rekeyed(lines0, entries, newkey, quote)
  {
    hide Conflict, Dropped, SplicedLines, Kept, Parsed;
    var drop := PlanDrops(entries, newkey, values);
    if drop.None? {
      return Err(DifferentMeanings);
    }
    EditsInOrder(lines0, entries, newkey, drop.value, quote, 0);
    var lines := ApplyEdits(lines0, EditsOf(entries, newkey, drop.value, quote));
    GoneOwnLines(lines0, entries, drop.value, 0);
    lines := DeleteEntries(lines, Gone(entries, drop.value));
    return Ok(lines);
  }

  // ----- what the rewrite keeps

  /** The positions of the entries that survive. */
  predicate Survives(entries: seq<Entry>, newkey: map<string, string>, i: nat)
    requires i < |entries|
  {
    entries[i].key !in Dropped(entries, newkey)
  }

  predicate DistinctKeys(entries: seq<Entry>) {
    forall i, j | 0 <= i < j < |entries| :: entries[i].key != entries[j].key
  }

  /** An entry survives exactly when it is the first to take its new key and its old key is not
      repeated further down. */
  lemma SurvivesIff(entries: seq<Entry>, newkey: map<string, string>, i: nat)
    requires i < |entries|
    ensures Survives(entries, newkey, i) <==>
            !Later(entries, newkey, i) && forall j | i < j < |entries| :: entries[j].key != entries[i].key
  {
    hide NewKey;
    if Later(entries, newkey, i) {
      assert entries[i].key in Dropped(entries, newkey);
    }
    forall j | i < j < |entries| && entries[j].key == entries[i].key ensures entries[i].key in Dropped(entries, newkey) {
      assert Later(entries, newkey, j);
    }
    if entries[i].key in Dropped(entries, newkey) && !Later(entries, newkey, i) {
      var j :| 0 <= j < |entries| && Later(entries, newkey, j) && entries[j].key == entries[i].key;
    }
  }

  /** The first entry to take the new key of entry i. */
  lemma {:induction false} FirstTaker(entries: seq<Entry>, newkey: map<string, string>, i: nat) returns (f: nat)
    requires i < |entries|
    ensures f <= i && NewKey(newkey, entries[f].key) == NewKey(newkey, entries[i].key) && !Later(entries, newkey, f)
    decreases i
  {
    if Later(entries, newkey, i) {
      var k :| 0 <= k < i && NewKey(newkey, entries[k].key) == NewKey(newkey, entries[i].key);
      f := FirstTaker(entries, newkey, k);
    } else {
      f := i;
    }
  }

  /** With pairwise distinct keys and no conflict, every new key keeps exactly one entry, the first,
      and that entry means what every entry of its group meant. */
  lemma ExactlyOneSurvivor(entries: seq<Entry>, newkey: map<string, string>, values: map<string, string>, i: nat) returns (f: nat)
    requires forall e | e in entries :: e.key in values
    requires DistinctKeys(entries) && !Conflict(entries, newkey, values) && i < |entries|
    ensures f <= i && NewKey(newkey, entries[f].key) == NewKey(newkey, entries[i].key)
    ensures Survives(entries, newkey, f) && values[entries[f].key] == values[entries[i].key]
    ensures forall j | 0 <= j < |entries| && NewKey(newkey, entries[j].key) == NewKey(newkey, entries[i].key) ::
              Survives(entries, newkey, j) <==> j == f
  {
    hide NewKey;
    f := FirstTaker(entries, newkey, i);
    SurvivesIff(entries, newkey, f);
    assert entries[f] in entries && entries[i] in entries;
    forall j | 0 <= j < |entries| && NewKey(newkey, entries[j].key) == NewKey(newkey, entries[i].key)
      ensures Survives(entries, newkey, j) <==> j == f
    {
      SurvivesIff(entries, newkey, j);
    }
  }

  /** Distinctness is needed exactly where a group starts: a new key loses every entry precisely when
      the first old key that takes it is repeated, because the drop set then holds that key too. */
  lemma LosesEveryEntry(entries: seq<Entry>, newkey: map<string, string>, f: nat)
    requires f < |entries| && !Later(entries, newkey, f)
    ensures (forall j | 0 <= j < |entries| && NewKey(newkey, entries[j].key) == NewKey(newkey, entries[f].key) ::
               !Survives(entries, newkey, j))
            <==> exists j | f < j < |entries| :: entries[j].key == entries[f].key
  {
    hide NewKey, Survives;
    SurvivesIff(entries, newkey, f);
    forall j | 0 <= j < |entries| && j != f && NewKey(newkey, entries[j].key) == NewKey(newkey, entries[f].key)
      ensures !Survives(entries, newkey, j)
    {
      SurvivesIff(entries, newkey, j);
    }
  }

  /** It happens: two equal entries under one old key refuse nothing and lose both. */
  lemma RepeatedKeyLost(newkey: map<string, string>, values: map<string, string>)
    requires "k" in values
    ensures var entries := [Entry(0, 0, 1, 1, "k"), Entry(1, 0, 1, 2, "k")];
            && !Conflict(entries, newkey, values)
            && !Survives(entries, newkey, 0) && !Survives(entries, newkey, 1)
  {
    var entries := [Entry(0, 0, 1, 1, "k"), Entry(1, 0, 1, 2, "k")];
    assert entries[1].key == entries[0].key;
    SurvivesIff(entries, newkey, 0);
    SurvivesIff(entries, newkey, 1);
    assert Later(entries, newkey, 1);
    hide NewKey, Survives;
  }

  // ----- the written text parses again, to the survivors

  /** What stands in the key's place. */
  function KeyText(lines: Lines, e: Entry, newkey: map<string, string>, quote: string -> string): string
    requires e.line < |lines| && e.start <= e.end <= |lines[e.line]|
  {
    if NewKey(newkey, e.key) != e.key then quote(NewKey(newkey, e.key)) else lines[e.line][e.start..e.end]
  }

  function Surviving(entries: seq<Entry>, drop: set<string>): (rest: seq<Entry>)
    ensures forall e | e in rest :: e in entries && e.key !in drop
  {
    if entries == [] then []
    else (if entries[0].key in drop then [] else [entries[0]]) + Surviving(entries[1..], drop)
  }

  /** An entry under its new key, `gap` lines higher. */
  function Moved(lines: Lines, e: Entry, gap: nat, newkey: map<string, string>, quote: string -> string): Entry
    requires gap <= e.line < e.lastLine <= |lines| && e.start <= e.end <= |lines[e.line]|
  {
    Entry(e.line - gap, e.start, e.start + |KeyText(lines, e, newkey, quote)|, e.lastLine - gap, NewKey(newkey, e.key))
  }

  /** The survivors where the rewrite puts them, when `gap` lines above are gone. */
  function Rewritten(lines: Lines, entries: seq<Entry>, newkey: map<string, string>, drop: set<string>, quote: string -> string, from: nat, gap: nat): (r: seq<Entry>)
    requires Parsed(lines, entries, from) && gap <= from
    ensures |r| == |Surviving(entries, drop)|
    decreases |entries|
  {
    if entries == [] then []
    else
      var e := entries[0];
      if e.key in drop then Rewritten(lines, entries[1..], newkey, drop, quote, e.lastLine, gap + (e.lastLine - e.line))
      else
        [Moved(lines, e, gap, newkey, quote)]
        + Rewritten(lines, entries[1..], newkey, drop, quote, e.lastLine, gap)
  }

  /** Entry e of the old text is entry f of the new one: only what stands in the key's place differs. */
  ghost predicate Carried(lines: Lines, e: Entry, out: Lines, f: Entry, newkey: map<string, string>, quote: string -> string) {
    && e.line < e.lastLine <= |lines| && e.start <= e.end <= |lines[e.line]|
    && f.line < f.lastLine <= |out| && f.lastLine - f.line == e.lastLine - e.line && f.start == e.start
    && f.key == NewKey(newkey, e.key)
    && f.end == f.start + |KeyText(lines, e, newkey, quote)|
    && out[f.line] == lines[e.line][..e.start] + KeyText(lines, e, newkey, quote) + lines[e.line][e.end..]
    && out[f.line + 1..f.lastLine] == lines[e.line + 1..e.lastLine]
  }

  lemma {:induction false} ParsedAt(lines: Lines, entries: seq<Entry>, from: nat, e: Entry)
    requires Parsed(lines, entries, from) && e in entries
    ensures from <= e.line < e.lastLine <= |lines| && e.start <= e.end <= |lines[e.line]|
  {
    if e != entries[0] {
      ParsedAt(lines, entries[1..], entries[0].lastLine, e);
    }
  }

  lemma {:induction false} NoEditsAbove(lines: Lines, entries: seq<Entry>, newkey: map<string, string>, drop: set<string>, quote: string -> string, from: nat, i: nat)
    requires Parsed(lines, entries, from) && i < from
    ensures EditsOn(EditsOf(entries, newkey, drop, quote), i) == []
  {
    hide NewKey;
    if entries != [] {
      NoEditsAbove(lines, entries[1..], newkey, drop, quote, entries[0].lastLine, i);
    }
  }

  lemma EditsOfStep(entries: seq<Entry>, newkey: map<string, string>, drop: set<string>, quote: string -> string, i: nat)
    requires entries != []
    ensures var e := entries[0];
            var now := NewKey(newkey, e.key);
            EditsOn(EditsOf(entries, newkey, drop, quote), i) ==
            (if now != e.key && e.key !in drop && e.line == i then [Edit(e.line, e.start, e.end, quote(now))] else [])
            + EditsOn(EditsOf(entries[1..], newkey, drop, quote), i)
  {
    hide NewKey;
  }

  /** The one edit on the lines of an entry, if there is one. */
  lemma {:induction false} EditsOnEntry(lines: Lines, entries: seq<Entry>, newkey: map<string, string>, drop: set<string>, quote: string -> string, from: nat, e: Entry, i: nat)
    requires Parsed(lines, entries, from) && e in entries && e.key !in drop && e.line <= i < e.lastLine
    ensures var now := NewKey(newkey, e.key);
            EditsOn(EditsOf(entries, newkey, drop, quote), i) ==
            if now != e.key && e.line == i then [Edit(e.line, e.start, e.end, quote(now))] else []
  {
    hide NewKey, EditsOf, EditsOn;
    EditsOfStep(entries, newkey, drop, quote, i);
    if e == entries[0] {
      NoEditsAbove(lines, entries[1..], newkey, drop, quote, e.lastLine, i);
    } else {
      ParsedAt(lines, entries[1..], entries[0].lastLine, e);
      EditsOnEntry(lines, entries[1..], newkey, drop, quote, entries[0].lastLine, e, i);
    }
  }

  /** What the splices leave of the lines of a surviving entry. */
  lemma SplicedEntry(lines: Lines, entries: seq<Entry>, newkey: map<string, string>, drop: set<string>, quote: string -> string, e: Entry)
    requires Parsed(lines, entries, 0) && e in entries && e.key !in drop
    ensures InOrder(lines, EditsOf(entries, newkey, drop, quote), 0, 0)
    ensures var now := SplicedLines(lines, EditsOf(entries, newkey, drop, quote));
            && e.line < e.lastLine <= |lines| && e.start <= e.end <= |lines[e.line]|
            && now[e.line] == lines[e.line][..e.start] + KeyText(lines, e, newkey, quote) + lines[e.line][e.end..]
            && forall i | e.line < i < e.lastLine :: now[i] == lines[i]
  {
    hide Parsed, EditsOf, EditsOn, NewKey, InOrder, Spliced, Ascending;
    var edits := EditsOf(entries, newkey, drop, quote);
    EditsInOrder(lines, entries, newkey, drop, quote, 0);
    ParsedAt(lines, entries, 0, e);
    EditsOnEntry(lines, entries, newkey, drop, quote, 0, e, e.line);
    if NewKey(newkey, e.key) != e.key {
      SplicedOnce(lines[e.line], Edit(e.line, e.start, e.end, quote(NewKey(newkey, e.key))));
    } else {
      SplicedNothing(lines[e.line], 0);
      assert lines[e.line] == lines[e.line][..e.start] + lines[e.line][e.start..e.end] + lines[e.line][e.end..];
    }
    forall i | e.line < i < e.lastLine ensures SplicedLines(lines, edits)[i] == lines[i] {
      EditsOnEntry(lines, entries, newkey, drop, quote, 0, e, i);
      SplicedNothing(lines[i], 0);
    }
  }

  lemma SplicedOnce(line: string, edit: Edit)
    requires edit.start <= edit.end <= |line|
    ensures Ascending(line, [edit], 0)
    ensures Spliced(line, [edit], 0) == line[..edit.start] + edit.text + line[edit.end..]
  {
    hide Spliced, Ascending;
    var on := [edit];
    assert on[1..] == [] && on[0] == edit;
    SplicedNothing(line, edit.end);
    SplicedStep(line, on, 0);
    var a, b, c := line[..edit.start], edit.text, line[edit.end..];
    assert line[0..edit.start] == a && Spliced(line, on, 0) == a + (b + c);
    Regroup(a, b, c);
  }

  lemma Regroup(a: string, b: string, c: string)
    ensures a + (b + c) == a + b + c
  {}

  /** What deleting leaves from a position on, when the next entry survives, and when it goes. */
  lemma KeptEntry(now: Lines, lines: Lines, entries: seq<Entry>, drop: set<string>, from: nat)
    requires entries != [] && |now| == |lines| && Parsed(lines, entries, from)
    ensures var e, tail := entries[0], entries[1..];
            Kept(now, Gone(entries, drop), from) ==
            now[from..if e.key in drop then e.line else e.lastLine] + Kept(now, Gone(tail, drop), e.lastLine)
  {
    hide Kept;
    var e, gone, rest := entries[0], Gone(entries, drop), Gone(entries[1..], drop);
    GoneOwnLines(lines, entries[1..], drop, e.lastLine);
    forall i | 0 <= i < e.lastLine ensures !Covers(rest, i) {
      NotCoveredAbove(|lines|, rest, e.lastLine, i);
    }
    if e.key in drop {
      KeptPlain(now, gone, from, e.line);
      KeptCovered(now, gone, e.line, e.lastLine);
      KeptSame(now, gone, rest, e.lastLine);
    } else {
      KeptPlain(now, rest, from, e.lastLine);
    }
  }

  ghost predicate AllCarried(lines: Lines, before: seq<Entry>, out: Lines, after: seq<Entry>, newkey: map<string, string>, quote: string -> string)
    requires |before| == |after|
  {
    forall i | 0 <= i < |before| :: Carried(lines, before[i], out, after[i], newkey, quote)
  }

  ghost predicate SplicedAs(lines: Lines, now: Lines, e: Entry, newkey: map<string, string>, quote: string -> string) {
    && |now| == |lines| && e.line < e.lastLine <= |lines| && e.start <= e.end <= |lines[e.line]|
    && now[e.line] == lines[e.line][..e.start] + KeyText(lines, e, newkey, quote) + lines[e.line][e.end..]
    && forall i | e.line < i < e.lastLine :: now[i] == lines[i]
  }

  lemma EntryCarried(lines: Lines, now: Lines, e: Entry, out: Lines, gap: nat, from: nat, rest: Lines, newkey: map<string, string>, quote: string -> string)
    requires SplicedAs(lines, now, e, newkey, quote) && gap <= from <= e.line && from - gap <= |out|
    requires out[from - gap..] == now[from..e.lastLine] + rest
    ensures e.lastLine - gap <= |out| && out[e.lastLine - gap..] == rest
    ensures var f := Moved(lines, e, gap, newkey, quote);
            Carried(lines, e, out, f, newkey, quote) && f.start <= f.end <= |out[f.line]|
  {
    hide KeyText, NewKey;
    var tail := out[from - gap..];
    assert |tail| == e.lastLine - from + |rest|;
    forall i | from <= i < e.lastLine ensures out[i - gap] == now[i] {
      assert out[i - gap] == tail[i - from];
    }
    assert out[e.lastLine - gap..] == tail[e.lastLine - from..] == rest;
    assert out[e.line - gap + 1..e.lastLine - gap] == lines[e.line + 1..e.lastLine];
  }

  lemma ParsedStep(lines: Lines, entries: seq<Entry>, from: nat)
    requires entries != []
    ensures Parsed(lines, entries, from) <==>
            && from <= entries[0].line < entries[0].lastLine <= |lines|
            && entries[0].start <= entries[0].end <= |lines[entries[0].line]|
            && Parsed(lines, entries[1..], entries[0].lastLine)
  {}

  lemma RewrittenStep(lines: Lines, entries: seq<Entry>, newkey: map<string, string>, drop: set<string>, quote: string -> string, from: nat, gap: nat)
    requires entries != [] && Parsed(lines, entries, from) && gap <= from
    ensures var e, tail := entries[0], entries[1..];
            && Parsed(lines, tail, e.lastLine) && from <= e.line < e.lastLine <= |lines| && e.start <= e.end <= |lines[e.line]|
            && (e.key in drop ==>
                  && Surviving(entries, drop) == Surviving(tail, drop)
                  && Rewritten(lines, entries, newkey, drop, quote, from, gap) ==
                     Rewritten(lines, tail, newkey, drop, quote, e.lastLine, gap + (e.lastLine - e.line)))
            && (e.key !in drop ==>
                  && Surviving(entries, drop) == [e] + Surviving(tail, drop)
                  && Rewritten(lines, entries, newkey, drop, quote, from, gap) ==
                     [Moved(lines, e, gap, newkey, quote)]
                     + Rewritten(lines, tail, newkey, drop, quote, e.lastLine, gap))
  {
    hide KeyText, NewKey;
  }

  lemma CarriedFirst(lines: Lines, e: Entry, was: seq<Entry>, out: Lines, f: Entry, now: seq<Entry>, newkey: map<string, string>, quote: string -> string)
    requires |was| == |now| && Carried(lines, e, out, f, newkey, quote) && AllCarried(lines, was, out, now, newkey, quote)
    ensures AllCarried(lines, [e] + was, out, [f] + now, newkey, quote)
  {
    hide Carried;
  }

  lemma ParsedFirst(out: Lines, f: Entry, now: seq<Entry>, from: nat)
    requires from <= f.line < f.lastLine <= |out| && f.start <= f.end <= |out[f.line]| && Parsed(out, now, f.lastLine)
    ensures Parsed(out, [f] + now, from)
  {
    ParsedStep(out, [f] + now, from);
    assert ([f] + now)[1..] == now;
    hide Parsed;
  }

  lemma {:induction false} WrittenParses(lines: Lines, now: Lines, entries: seq<Entry>, newkey: map<string, string>, drop: set<string>, quote: string -> string, out: Lines, from: nat, gap: nat)
    requires Parsed(lines, entries, from) && gap <= from <= |lines| == |now| && from - gap <= |out|
    requires out[from - gap..] == Kept(now, Gone(entries, drop), from)
    requires forall e | e in entries && e.key !in drop :: SplicedAs(lines, now, e, newkey, quote)
    ensures Parsed(out, Rewritten(lines, entries, newkey, drop, quote, from, gap), from - gap)
    ensures AllCarried(lines, Surviving(entries, drop), out, Rewritten(lines, entries, newkey, drop, quote, from, gap), newkey, quote)
    decreases |entries|
  {
    hide Kept, Gone, SplicedAs, KeyText, NewKey, Carried, AllCarried, Parsed, Rewritten, Surviving;
    if entries == [] {
      NothingWritten(lines, newkey, drop, quote, out, from, gap);
    } else {
      var e, tail := entries[0], entries[1..];
      RewrittenStep(lines, entries, newkey, drop, quote, from, gap);
      KeptEntry(now, lines, entries, drop, from);
      var rest := Kept(now, Gone(tail, drop), e.lastLine);
      assert forall t | t in tail :: t in entries;
      if e.key in drop {
        DropHead(out, now[from..e.line], rest, from - gap);
        WrittenParses(lines, now, tail, newkey, drop, quote, out, e.lastLine, gap + (e.lastLine - e.line));
        WrittenDropped(lines, entries, newkey, drop, quote, out, from, gap);
      } else {
        EntryCarried(lines, now, e, out, gap, from, rest, newkey, quote);
        WrittenParses(lines, now, tail, newkey, drop, quote, out, e.lastLine, gap);
        WrittenKept(lines, entries, newkey, drop, quote, out, from, gap);
      }
    }
  }

  /** A dropped entry in front of entries that parse. */
  lemma WrittenDropped(lines: Lines, entries: seq<Entry>, newkey: map<string, string>, drop: set<string>, quote: string -> string, out: Lines, from: nat, gap: nat)
    requires entries != [] && entries[0].key in drop && Parsed(lines, entries, from) && gap <= from
    requires var e := entries[0];
             && from <= e.line < e.lastLine && Parsed(lines, entries[1..], e.lastLine)
             && var below := Rewritten(lines, entries[1..], newkey, drop, quote, e.lastLine, gap + (e.lastLine - e.line));
             Parsed(out, below, e.line - gap) && AllCarried(lines, Surviving(entries[1..], drop), out, below, newkey, quote)
    ensures Parsed(out, Rewritten(lines, entries, newkey, drop, quote, from, gap), from - gap)
    ensures AllCarried(lines, Surviving(entries, drop), out, Rewritten(lines, entries, newkey, drop, quote, from, gap), newkey, quote)
  {
    hide KeyText, NewKey, Carried, AllCarried, Parsed, Rewritten, Surviving;
    var e := entries[0];
    RewrittenStep(lines, entries, newkey, drop, quote, from, gap);
    ParsedHigher(out, Rewritten(lines, entries, newkey, drop, quote, from, gap), e.line - gap, from - gap);
  }

  /** A surviving entry in front of entries that parse. */
  lemma WrittenKept(lines: Lines, entries: seq<Entry>, newkey: map<string, string>, drop: set<string>, quote: string -> string, out: Lines, from: nat, gap: nat)
    requires entries != [] && entries[0].key !in drop && Parsed(lines, entries, from) && gap <= from
    requires var e := entries[0];
             && from <= e.line < e.lastLine <= |lines| && e.start <= e.end <= |lines[e.line]| && Parsed(lines, entries[1..], e.lastLine)
             && var f := Moved(lines, e, gap, newkey, quote);
             var below := Rewritten(lines, entries[1..], newkey, drop, quote, e.lastLine, gap);
             && Carried(lines, e, out, f, newkey, quote) && f.start <= f.end <= |out[f.line]|
             && Parsed(out, below, f.lastLine) && AllCarried(lines, Surviving(entries[1..], drop), out, below, newkey, quote)
    ensures Parsed(out, Rewritten(lines, entries, newkey, drop, quote, from, gap), from - gap)
    ensures AllCarried(lines, Surviving(entries, drop), out, Rewritten(lines, entries, newkey, drop, quote, from, gap), newkey, quote)
  {
    hide KeyText, NewKey, Carried, AllCarried, Parsed, Rewritten, Surviving;
    var e, tail := entries[0], entries[1..];
    RewrittenStep(lines, entries, newkey, drop, quote, from, gap);
    var f := Moved(lines, e, gap, newkey, quote);
    var below := Rewritten(lines, tail, newkey, drop, quote, e.lastLine, gap);
    CarriedParts(lines, e, out, f, newkey, quote);
    CarriedFirst(lines, e, Surviving(tail, drop), out, f, below, newkey, quote);
    ParsedFirst(out, f, below, from - gap);
  }

  lemma NothingWritten(lines: Lines, newkey: map<string, string>, drop: set<string>, quote: string -> string, out: Lines, from: nat, gap: nat)
    requires gap <= from
    ensures Parsed(lines, [], from) && Rewritten(lines, [], newkey, drop, quote, from, gap) == [] == Surviving([], drop)
    ensures Parsed(out, [], from - gap) && AllCarried(lines, [], out, [], newkey, quote)
  {}

  lemma CarriedParts(lines: Lines, e: Entry, out: Lines, f: Entry, newkey: map<string, string>, quote: string -> string)
    requires Carried(lines, e, out, f, newkey, quote)
    ensures f.line < f.lastLine <= |out|
  {
    hide KeyText, NewKey;
  }

  lemma DropHead(out: Lines, head: Lines, rest: Lines, at: nat)
    requires at <= |out| && out[at..] == head + rest
    ensures at + |head| <= |out| && out[at + |head|..] == rest
  {
    assert out[at + |head|..] == out[at..][|head|..];
  }

  lemma ParsedHigher(lines: Lines, entries: seq<Entry>, from: nat, higher: nat)
    requires Parsed(lines, entries, from) && higher <= from
    ensures Parsed(lines, entries, higher)
  {}

  /** The written text holds the survivors and no other entry, in order, each with `quote` of its new
      key (or its old spelling, if the key stays) between its own old text: it parses again. */
  lemma RekeyedParses(lines: Lines, entries: seq<Entry>, newkey: map<string, string>, quote: string -> string)
    requires Parsed(lines, entries, 0)
    ensures var drop, out := Dropped(entries, newkey), Rekeyed(lines, entries, newkey, quote);
            var now := Rewritten(lines, entries, newkey, drop, quote, 0, 0);
            Parsed(out, now, 0) && AllCarried(lines, Surviving(entries, drop), out, now, newkey, quote)
  {
    hide Kept, Gone, KeyText, NewKey, Dropped, EditsOf, InOrder, Carried, SplicedLines, Parsed;
    var drop, out := Dropped(entries, newkey), Rekeyed(lines, entries, newkey, quote);
    EditsInOrder(lines, entries, newkey, drop, quote, 0);
    var now := SplicedLines(lines, EditsOf(entries, newkey, drop, quote));
    forall e | e in entries && e.key !in drop ensures SplicedAs(lines, now, e, newkey, quote) {
      SplicedEntry(lines, entries, newkey, drop, quote, e);
    }
    assert out[0..] == out;
    WrittenParses(lines, now, entries, newkey, drop, quote, out, 0, 0);
  }

  predicate DistinctNewKeys(entries: seq<Entry>, newkey: map<string, string>) {
    forall i, j | 0 <= i < j < |entries| :: NewKey(newkey, entries[i].key) != NewKey(newkey, entries[j].key)
  }

  lemma RepeatIsDropped(entries: seq<Entry>, newkey: map<string, string>, i: nat, m: nat)
    requires i < m < |entries|
    ensures NewKey(newkey, entries[i].key) == NewKey(newkey, entries[m].key) ==> entries[m].key in Dropped(entries, newkey)
  {
    hide NewKey;
    if NewKey(newkey, entries[i].key) == NewKey(newkey, entries[m].key) {
      assert Later(entries, newkey, m);
    }
  }

  /** A survivor's new key is taken by no entry above it. */
  lemma SurvivorIsFirst(entries: seq<Entry>, newkey: map<string, string>, k: nat, e: Entry, i: nat)
    requires i < k <= |entries| && e in Surviving(entries[k..], Dropped(entries, newkey))
    ensures NewKey(newkey, entries[i].key) != NewKey(newkey, e.key)
  {
    hide NewKey;
    var j :| 0 <= j < |entries[k..]| && entries[k..][j] == e;
    assert entries[k + j] == e;
    RepeatIsDropped(entries, newkey, i, k + j);
  }

  lemma DistinctFirst(e: Entry, rest: seq<Entry>, newkey: map<string, string>)
    requires DistinctNewKeys(rest, newkey)
    requires forall j | 0 <= j < |rest| :: NewKey(newkey, e.key) != NewKey(newkey, rest[j].key)
    ensures DistinctNewKeys([e] + rest, newkey)
  {
    hide NewKey;
  }

  lemma SurvivingStep(entries: seq<Entry>, drop: set<string>)
    requires entries != []
    ensures Surviving(entries, drop) == (if entries[0].key in drop then [] else [entries[0]]) + Surviving(entries[1..], drop)
  {}

  /** No two entries of the written text share a key. */
  lemma {:induction false} WrittenKeysDistinct(entries: seq<Entry>, newkey: map<string, string>, k: nat)
    requires k <= |entries|
    ensures DistinctNewKeys(Surviving(entries[k..], Dropped(entries, newkey)), newkey)
    decreases |entries| - k
  {
    hide NewKey, Dropped, Surviving, DistinctNewKeys;
    var drop := Dropped(entries, newkey);
    if k == |entries| {
      assert entries[k..] == [];
      NoneSurviving(drop, newkey);
    } else {
      var tail := Surviving(entries[k + 1..], drop);
      WrittenKeysDistinct(entries, newkey, k + 1);
      SurvivingStep(entries[k..], drop);
      assert entries[k..][1..] == entries[k + 1..] && [] + tail == tail;
      forall j | 0 <= j < |tail| && entries[k].key !in drop ensures NewKey(newkey, entries[k].key) != NewKey(newkey, tail[j].key) {
        SurvivorIsFirst(entries, newkey, k + 1, tail[j], k);
      }
      if entries[k].key !in drop {
        DistinctFirst(entries[k], tail, newkey);
      }
    }
  }

  lemma NoneSurviving(drop: set<string>, newkey: map<string, string>)
    ensures Surviving([], drop) == [] && DistinctNewKeys([], newkey)
  {}

  // ----- in terms of the map itself

  /** The key the map sends e's key to, its own if the map does not mention it: every use of the map
      comes down to this. */
  lemma NewKeyIs(newkey: map<string, string>, key: string)
    ensures key in newkey ==> NewKey(newkey, key) == newkey[key]
    ensures key !in newkey ==> NewKey(newkey, key) == key
  {}

  /** Both keys end as this one. */
  ghost predicate BothBecome(newkey: map<string, string>, a: string, b: string, now: string) {
    && (if a in newkey then newkey[a] == now else a == now)
    && (if b in newkey then newkey[b] == now else b == now)
  }

  /** There is a conflict exactly when the map sends two entries of different values to one key. */
  lemma ConflictsExactly(entries: seq<Entry>, newkey: map<string, string>, values: map<string, string>)
    requires forall e | e in entries :: e.key in values
    ensures Conflict(entries, newkey, values) <==>
            exists a, b, now :: a in entries && b in entries && BothBecome(newkey, a.key, b.key, now) && values[a.key] != values[b.key]
  {
    hide NewKey, BothBecome;
    if Conflict(entries, newkey, values) {
      var a, b :| a in entries && b in entries && NewKey(newkey, a.key) == NewKey(newkey, b.key) && values[a.key] != values[b.key];
      BecomeIsNewKey(newkey, a.key, b.key, NewKey(newkey, a.key));
      assert BothBecome(newkey, a.key, b.key, NewKey(newkey, a.key));
    }
    if exists a, b, now :: a in entries && b in entries && BothBecome(newkey, a.key, b.key, now) && values[a.key] != values[b.key] {
      var a, b, now :| a in entries && b in entries && BothBecome(newkey, a.key, b.key, now) && values[a.key] != values[b.key];
      BecomeIsNewKey(newkey, a.key, b.key, now);
    }
  }

  lemma BecomeIsNewKey(newkey: map<string, string>, a: string, b: string, now: string)
    ensures BothBecome(newkey, a, b, now) <==> NewKey(newkey, a) == now == NewKey(newkey, b)
  {}

  /** The survivors are the entries whose key is not dropped, none left out. */
  lemma {:induction false} SurvivingExactly(entries: seq<Entry>, drop: set<string>, e: Entry)
    ensures e in Surviving(entries, drop) <==> e in entries && e.key !in drop
  {
    if entries != [] {
      SurvivingExactly(entries[1..], drop, e);
      assert e in entries <==> e == entries[0] || e in entries[1..];
    }
  }

  /** Entry f of the written text is entry e of the old one under the key the map gives it: that key
      quoted in the key's place if it differs, the old line untouched if it does not. */
  ghost predicate Remapped(lines: Lines, e: Entry, out: Lines, f: Entry, newkey: map<string, string>, quote: string -> string) {
    && e.line < |lines| && e.start <= e.end <= |lines[e.line]| && f.line < |out| && f.start <= f.end <= |out[f.line]|
    && out[f.line][..f.start] == lines[e.line][..e.start] && out[f.line][f.end..] == lines[e.line][e.end..]
    && (if e.key in newkey && newkey[e.key] != e.key
        then f.key == newkey[e.key] && out[f.line][f.start..f.end] == quote(newkey[e.key])
        else f.key == e.key && out[f.line] == lines[e.line])
  }

  lemma CarriedIsRemapped(lines: Lines, e: Entry, out: Lines, f: Entry, newkey: map<string, string>, quote: string -> string)
    requires Carried(lines, e, out, f, newkey, quote)
    ensures Remapped(lines, e, out, f, newkey, quote)
  {
    NewKeyIs(newkey, e.key);
    hide NewKey;
    var a, b, c := lines[e.line][..e.start], KeyText(lines, e, newkey, quote), lines[e.line][e.end..];
    ThreeParts(a, b, c);
    assert out[f.line] == a + b + c && |a| == f.start && |a| + |b| == f.end;
    ThreeParts(a, lines[e.line][e.start..e.end], c);
    assert a + lines[e.line][e.start..e.end] + c == lines[e.line];
  }

  lemma ThreeParts(a: string, b: string, c: string)
    ensures var s := a + b + c; s[..|a|] == a && s[|a|..|a| + |b|] == b && s[|a| + |b|..] == c
  {}

  /** What re-keying does, in terms of the map: the survivors stand in the written text, in order, each
      under the key the map gives it. */
  lemma RekeyedByMap(lines: Lines, entries: seq<Entry>, newkey: map<string, string>, quote: string -> string, i: nat)
    requires Parsed(lines, entries, 0) && i < |Surviving(entries, Dropped(entries, newkey))|
    ensures var drop, out := Dropped(entries, newkey), Rekeyed(lines, entries, newkey, quote);
            var now := Rewritten(lines, entries, newkey, drop, quote, 0, 0);
            Parsed(out, now, 0) && Remapped(lines, Surviving(entries, drop)[i], out, now[i], newkey, quote)
  {
    hide Carried, Remapped, Rekeyed, Rewritten, Surviving, Dropped, Parsed;
    RekeyedParses(lines, entries, newkey, quote);
    var drop, out := Dropped(entries, newkey), Rekeyed(lines, entries, newkey, quote);
    CarriedIsRemapped(lines, Surviving(entries, drop)[i], out, Rewritten(lines, entries, newkey, drop, quote, 0, 0)[i], newkey, quote);
  }

  // ----- all other text

  /** How many of the lines from `from` to i belong to deleted entries. */
  function CoveredCount(gone: seq<Entry>, from: nat, i: nat): (n: nat)
    requires from <= i
    ensures n <= i - from
    decreases i - from
  {
    if from == i then 0 else (if Covers(gone, from) then 1 else 0) + CoveredCount(gone, from + 1, i)
  }

  lemma {:induction false} KeptAt(lines: Lines, gone: seq<Entry>, from: nat, i: nat)
    requires from <= i <= |lines|
    ensures |Kept(lines, gone, from)| == |lines| - from - CoveredCount(gone, from, |lines|)
    ensures i < |lines| && !Covers(gone, i) ==>
              var at := i - from - CoveredCount(gone, from, i);
              at < |Kept(lines, gone, from)| && Kept(lines, gone, from)[at] == lines[i]
    decreases |lines| - from
  {
    hide Covers, Kept;
    if from == |lines| {
      KeptNothing(lines, gone);
    } else {
      KeptStep(lines, gone, from);
      KeptAt(lines, gone, from + 1, if i > from then i else from + 1);
    }
  }

  lemma {:induction false} NoEditOn(entries: seq<Entry>, newkey: map<string, string>, drop: set<string>, quote: string -> string, i: nat)
    requires forall e | e in entries :: e.line != i
    ensures EditsOn(EditsOf(entries, newkey, drop, quote), i) == []
  {
    hide EditsOf, EditsOn, NewKey;
    if entries == [] {
      NoEntriesNoEdits(newkey, drop, quote, i);
    } else {
      EditsOfStep(entries, newkey, drop, quote, i);
      assert entries[0] in entries && forall e | e in entries[1..] :: e in entries;
      NoEditOn(entries[1..], newkey, drop, quote, i);
    }
  }

  lemma NoEntriesNoEdits(newkey: map<string, string>, drop: set<string>, quote: string -> string, i: nat)
    ensures EditsOn(EditsOf([], newkey, drop, quote), i) == []
  {}

  /** A line that belongs to no deleted entry and starts no entry stands in the written text as it was,
      moved up by the deleted lines above it; and no line is added. */
  lemma OtherTextStays(lines: Lines, entries: seq<Entry>, newkey: map<string, string>, quote: string -> string, i: nat)
    requires Parsed(lines, entries, 0) && i < |lines|
    ensures var out, gone := Rekeyed(lines, entries, newkey, quote), Gone(entries, Dropped(entries, newkey));
            && |out| == |lines| - CoveredCount(gone, 0, |lines|)
            && (!Covers(gone, i) && (forall e | e in entries :: e.line != i) ==>
                  i - CoveredCount(gone, 0, i) < |out| && out[i - CoveredCount(gone, 0, i)] == lines[i])
  {
    hide Kept, Covers, Gone, Dropped, EditsOf, EditsOn, InOrder, Parsed, NewKey, Spliced, Ascending, CoveredCount;
    var drop := Dropped(entries, newkey);
    EditsInOrder(lines, entries, newkey, drop, quote, 0);
    var now := SplicedLines(lines, EditsOf(entries, newkey, drop, quote));
    KeptAt(now, Gone(entries, drop), 0, i);
    if forall e | e in entries :: e.line != i {
      NoEditOn(entries, newkey, drop, quote, i);
      SplicedNothing(lines[i], 0);
    }
  }
}
