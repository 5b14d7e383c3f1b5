/** The CA-key custody commands: split the key into share files, export it as a sealed backup, and
    restore it from either. */
module Custody {
  import opened AtRest
  import opened Backup
  import opened ByteArrays
  import opened FileSystems
  import opened Polynomial
  import opened PythonInt
  import opened SecretHolders
  import opened ShamirTheorems
  import opened Wrappers
  import Shamir

  // ----- share files: share-01, share-02, ...

  function ShareName(id: nat): string { "share-" + Format(id, 10, 2) }

  function SharePath(dir: Path, id: nat): Path { dir + "/" + ShareName(id) }

  /** The index of the last c in s, or -1. */
  function LastIndex(s: string, c: char): (i: int)
    ensures -1 <= i < |s|
    ensures i >= 0 ==> s[i] == c
    ensures forall k | i < k < |s| :: s[k] != c
  {
    if s == [] then -1
    else if s[|s| - 1] == c then |s| - 1
    else LastIndex(s[..|s| - 1], c)
  }

  /** s.split(c)[-1] */
  function AfterLast(s: string, c: char): string { s[LastIndex(s, c) + 1..] }

  /** A file name without its last suffix, which may be a single dot; leading dots start none. */
  function Stem(name: string): string {
    var i := LastIndex(name, '.');
    if i >= 0 && exists c | c in name[..i] :: c != '.' then name[..i] else name
  }

  /** The share id a path's file name encodes. */
  function IdOf(path: Path): Option<int> {
    ParseInt(AfterLast(Stem(AfterLast(path, '/')), '-'), 10)
  }

  lemma LastIndexIs(s: string, c: char, at: nat)
    requires at < |s| && s[at] == c && forall k | at < k < |s| :: s[k] != c
    ensures LastIndex(s, c) == at
  {
    hide LastIndex;
  }

  lemma NowhereIn(s: string, c: char)
    requires c !in s
    ensures forall m | 0 <= m < |s| :: s[m] != c
  {}

  lemma Joined(before: string, c: char, after: string, k: nat)
    requires k <= |after|
    ensures (before + [c] + after)[|before| + k] == if k == 0 then c else after[k - 1]
  {}

  lemma LastIndexOf(before: string, c: char, after: string)
    requires c !in after
    ensures LastIndex(before + [c] + after, c) == |before|
  {
    hide LastIndex;
    NowhereIn(after, c);
    LastIndexJoined(before + [c] + after, before, c, after);
  }

  lemma LastIndexJoined(s: string, before: string, c: char, after: string)
    requires s == before + [c] + after && forall m | 0 <= m < |after| :: after[m] != c
    ensures LastIndex(s, c) == |before|
  {
    hide LastIndex;
    Joined(before, c, after, 0);
    forall k | |before| < k < |s| ensures s[k] != c {
      Joined(before, c, after, k - |before|);
    }
    LastIndexIs(s, c, |before|);
  }

  lemma AfterLastOf(before: string, c: char, after: string)
    requires c !in after
    ensures AfterLast(before + [c] + after, c) == after
  {
    hide LastIndex;
    LastIndexOf(before, c, after);
    assert (before + [c] + after)[|before| + 1..] == after;
  }

  lemma FormatHasOnlyDigits(n: nat, c: char)
    requires DigitValue(c) >= 10
    ensures c !in Format(n, 10, 2)
  {
    FormatPlain(n, 10, 2);
    hide Format;
  }

  lemma StemOfPlain(name: string)
    requires '.' !in name
    ensures Stem(name) == name
  {}

  lemma NameParts(id: nat)
    ensures ShareName(id) == "share" + ['-'] + Format(id, 10, 2)
    ensures '/' !in ShareName(id) && '.' !in ShareName(id)
  {
    OtherCharacters();
    FormatHasOnlyDigits(id, '/');
    FormatHasOnlyDigits(id, '.');
    hide Format, DigitValue;
  }

  /** Printing an id into a file name and reading it back undo each other, in any directory. */
  lemma IdOfSharePath(dir: Path, id: nat)
    ensures IdOf(SharePath(dir, id)) == Some(id as int)
  {
    hide Format, ParseInt, LastIndex, DigitValue, AfterLast, Stem, ShareName;
    var digits, name := Format(id, 10, 2), ShareName(id);
    NameParts(id);
    OtherCharacters();
    FormatHasOnlyDigits(id, '-');
    assert SharePath(dir, id) == dir + ['/'] + name;
    AfterLastOf(dir, '/', name);
    StemOfPlain(name);
    AfterLastOf("share", '-', digits);
    ParseFormat(id, 10, 2);
  }

  lemma OtherCharacters()
    ensures DigitValue('/') == DigitValue('.') == DigitValue('-') == 16
  {}

  /** One suffix is taken off a name that has more than dots before it, even an empty one. */
  lemma StemWithSuffix(stem: string, suffix: string)
    requires '.' !in suffix && exists c | c in stem :: c != '.'
    ensures Stem(stem + ['.'] + suffix) == stem
  {
    var name := stem + ['.'] + suffix;
    LastIndexOf(stem, '.', suffix);
    assert name[..|stem|] == stem;
    hide LastIndex;
  }

  /** A suffix on a share file does not change its id. */
  lemma IdWithSuffix(dir: Path, id: nat, suffix: string)
    requires '.' !in suffix && '/' !in suffix
    ensures IdOf(SharePath(dir, id) + ['.'] + suffix) == Some(id as int)
  {
    hide Format, ParseInt, LastIndex, DigitValue, AfterLast, Stem, ShareName;
    var digits, name := Format(id, 10, 2), ShareName(id);
    NameParts(id);
    OtherCharacters();
    FormatHasOnlyDigits(id, '-');
    assert SharePath(dir, id) + ['.'] + suffix == dir + ['/'] + (name + ['.'] + suffix);
    AfterLastOf(dir, '/', name + ['.'] + suffix);
    assert name[0] == 's' && name[0] in name;
    StemWithSuffix(name, suffix);
    AfterLastOf("share", '-', digits);
    ParseFormat(id, 10, 2);
  }

  /** The names, at both ends of the range of ids. */
  lemma ShareNames()
    ensures ShareName(1) == "share-01" && ShareName(255) == "share-255"
  {
    assert Digits(1, 10) == "1";
    assert Digits(25, 10) == "25" by { assert Digits(2, 10) == "2"; }
    assert Digits(255, 10) == Digits(25, 10) + "5";
    assert Format(1, 10, 2) == "01";
  }

  /** No two shares are written to one file. */
  lemma SharePathsDistinct(dir: Path, m: nat, n: nat)
    requires SharePath(dir, m) == SharePath(dir, n)
    ensures m == n
  {
    IdOfSharePath(dir, m);
    IdOfSharePath(dir, n);
    hide SharePath, IdOf;
  }

  // ----- reading the key at rest

  datatype Exit = Success | ExitOne | Raised

  /** A command that comes to nothing: an error message and exit status 1, or an exception that no
      handler catches. */
  datatype Failure = Reported | Uncaught

  /** The plaintext key behind the at-rest file, tried without a passphrase first, then validated. */
  function LoadKey(pem: Pem, raw: Bytes, sources: Sources): Result<Bytes, AtRest.Error> {
    var unwrapped :=
      if Unwrap(pem, raw, None).Ok? then Unwrap(pem, raw, None)
      else match Acquire(sources)
           case Err(e) => Err(e)
           case Ok(p) => Unwrap(pem, raw, Some(p));
    match unwrapped
    case Err(e) => Err(e)
    case Ok(key) => if pem.parse(key).None? then Err(NotAPrivateKey) else Ok(key)
  }

  /** The key file is there, can be read, and yields a key to hold. */
  predicate Loadable(pem: Pem, files: Files, keyPath: Path, unreadable: bool, sources: Sources) {
    && keyPath in files && !unreadable
    && LoadKey(pem, files[keyPath], sources).Ok? && LoadKey(pem, files[keyPath], sources).value != []
  }

  /** A plaintext key file is handed on as it is; any other loads exactly when a supplied passphrase
      opens it, and then as the plaintext of the key inside, never as what is on disk. */
  lemma LoadsExactly(pem: Pem, raw: Bytes, sources: Sources)
    requires pem.Lawful()
    ensures pem.parse(raw).Some? ==> LoadKey(pem, raw, sources) == Ok(raw)
    ensures pem.parse(raw).None? ==> (LoadKey(pem, raw, sources).Ok? <==> exists p :: Opener(pem, raw, sources, p))
    ensures forall p | pem.parse(raw).None? && Opener(pem, raw, sources, p) ::
              LoadKey(pem, raw, sources) == Ok(pem.plain(pem.open(raw, p).value))
  {
    if Acquire(sources).Ok? {
      AcquiresExactly(sources, Acquire(sources).value);
    }
    forall p | Opener(pem, raw, sources, p) ensures Acquire(sources) == Ok(p) {
      AcquiresExactly(sources, p);
    }
    if pem.parse(raw).None? && LoadKey(pem, raw, sources).Ok? {
      assert Opener(pem, raw, sources, Acquire(sources).value);
    }
  }

  /** Whatever loads is the key on disk. */
  lemma LoadsTheKey(pem: Pem, files: Files, keyPath: Path, sources: Sources, key: PrivateKey, passphrase: Option<string>)
    requires pem.Lawful() && Holds(pem, files, keyPath, key, passphrase)
    requires passphrase.Some? ==> Supplied(sources, passphrase.value)
    ensures LoadKey(pem, files[keyPath], sources).Ok?
    ensures pem.parse(LoadKey(pem, files[keyPath], sources).value) == Some(key)
  {
    LoadsExactly(pem, files[keyPath], sources);
    hide LoadKey;
    if passphrase.Some? {
      assert Opener(pem, files[keyPath], sources, passphrase.value);
    }
  }

  // ----- writing shares

  /** The files once the first n shares are in place: each without its id byte, under its own name. */
  function WithShares(files: Files, dir: Path, shares: seq<Bytes>, n: nat): Files
    requires n <= |shares| && [] !in shares
  {
    if n == 0 then files
    else WithShares(files, dir, shares, n - 1)[SharePath(dir, shares[n - 1][0] as int) := shares[n - 1][1..]]
  }

  /** Names mkstemp could return: new, and all different. */
  ghost predicate FreshTemps(tmps: seq<Path>, files: Files, dir: Path, n: nat) {
    && |tmps| == n
    && (forall i | 0 <= i < n :: tmps[i] !in files && forall id: nat :: tmps[i] != SharePath(dir, id))
    && (forall i, j | 0 <= i < j < n :: tmps[i] != tmps[j])
  }

  lemma {:induction false} TempsStayFresh(tmps: seq<Path>, files: Files, dir: Path, shares: seq<Bytes>, n: nat)
    requires n <= |shares| && [] !in shares && FreshTemps(tmps, files, dir, |shares|)
    ensures FreshTemps(tmps, WithShares(files, dir, shares, n), dir, |shares|)
  {
    hide SharePath;
    if n > 0 {
      TempsStayFresh(tmps, files, dir, shares, n - 1);
    }
  }

  /** Every state from index `from` on holds the first k shares whole, for some k, and nothing else
      new but temporary names: each share path is wholly old or wholly new. */
  ghost predicate SharesAppear(history: seq<Files>, from: nat, before: Files, dir: Path, shares: seq<Bytes>, tmps: set<Path>)
    requires [] !in shares
  {
    forall i | from <= i < |history| :: ShowsSome(history[i], before, dir, shares, tmps)
  }

  ghost predicate ShowsSome(now: Files, before: Files, dir: Path, shares: seq<Bytes>, tmps: set<Path>)
    requires [] !in shares
  {
    exists k | 0 <= k <= |shares| :: ShowsShares(now, before, dir, shares, k, tmps)
  }

  ghost predicate ShowsShares(now: Files, before: Files, dir: Path, shares: seq<Bytes>, k: nat, tmps: set<Path>)
    requires k <= |shares| && [] !in shares
  {
    now - tmps == WithShares(before, dir, shares, k)
  }

  function Names(tmps: seq<Path>): set<Path> { set t | t in tmps }

  lemma TempsNotShown(tmps: seq<Path>, files: Files, dir: Path, shares: seq<Bytes>, k: nat)
    requires [] !in shares && FreshTemps(tmps, files, dir, |shares|) && k <= |shares|
    ensures forall t | t in tmps :: t !in WithShares(files, dir, shares, k)
  {
    hide SharePath, WithShares;
    TempsStayFresh(tmps, files, dir, shares, k);
  }

  lemma StateShows(now: Files, before: Files, dir: Path, shares: seq<Bytes>, tmps: seq<Path>, k: nat, i: nat)
    requires [] !in shares && FreshTemps(tmps, before, dir, |shares|) && k <= |shares| && i < |tmps|
    requires now - {tmps[i]} == WithShares(before, dir, shares, k)
    ensures ShowsSome(now, before, dir, shares, Names(tmps))
  {
    hide WithShares, FreshTemps, Names;
    TempsNotShown(tmps, before, dir, shares, k);
    RemoveNames(now, WithShares(before, dir, shares, k), tmps, i);
    assert ShowsShares(now, before, dir, shares, k, Names(tmps));
  }

  /** One atomic write shows the shares up to i, then the shares up to i + 1. */
  lemma PassageShows(history: seq<Files>, from: nat, commit: nat, before: Files, dir: Path, shares: seq<Bytes>, tmps: seq<Path>, i: nat)
    requires [] !in shares && FreshTemps(tmps, before, dir, |shares|) && i < |shares| == |tmps|
    requires AtomicPassage(history, from, commit, WithShares(before, dir, shares, i), SharePath(dir, shares[i][0] as int), shares[i][1..], tmps[i])
    ensures SharesAppear(history, from, before, dir, shares, Names(tmps))
  {
    hide WithShares, FreshTemps, Names, SharePath, ShowsSome;
    OneMore(before, dir, shares, i);
    forall m | from <= m < |history| ensures ShowsSome(history[m], before, dir, shares, Names(tmps)) {
      assert m < commit ==> history[..commit][m] == history[m];
      StateShows(history[m], before, dir, shares, tmps, if m < commit then i else i + 1, i);
    }
  }

  lemma RemoveNames(now: Files, kept: Files, tmps: seq<Path>, i: nat)
    requires i < |tmps| && now - {tmps[i]} == kept && forall t | t in tmps :: t !in kept
    ensures now - Names(tmps) == kept
  {
    var rest := now - Names(tmps);
    assert rest == kept - Names(tmps);
    assert kept - Names(tmps) == kept;
  }

  lemma AppearTogether(history: seq<Files>, from: nat, mid: nat, before: Files, dir: Path, shares: seq<Bytes>, tmps: set<Path>)
    requires [] !in shares && from <= mid <= |history|
    requires SharesAppear(history[..mid], from, before, dir, shares, tmps) && SharesAppear(history, mid, before, dir, shares, tmps)
    ensures SharesAppear(history, from, before, dir, shares, tmps)
  {
    hide ShowsSome;
    forall i | from <= i < |history| ensures ShowsSome(history[i], before, dir, shares, tmps) {
      if i < mid {
        assert history[..mid][i] == history[i];
      }
    }
  }

  /** Writes the shares one by one; a failure leaves the shares written before it, and at most the
      temporary file of the write that failed. */
  method WriteShares(fs: FileSystem, dir: Path, shares: seq<Bytes>, tmps: seq<Path>, faults: seq<Fault>, unlinkFails: bool)
    returns (completed: bool, ghost written: nat, ghost leftover: set<Path>)
    requires fs.Valid() && [] !in shares && FreshTemps(tmps, fs.files, dir, |shares|) && |faults| == |shares|
    modifies fs
    ensures fs.Valid() && written <= |shares|
    ensures fs.files - leftover == WithShares(old(fs.files), dir, shares, written)
    ensures leftover <= Names(tmps) && |leftover| <= 1
    ensures completed <==> forall f | f in faults :: f.NoFault?
    ensures completed ==> fs.files == WithShares(old(fs.files), dir, shares, |shares|)
    ensures old(fs.history) <= fs.history
    ensures SharesAppear(fs.history, |old(fs.history)|, old(fs.files), dir, shares, Names(tmps))
  {
    hide SharePath, FreshTemps, WithShares, AtomicPassage, SharesAppear;
    ghost var before, started := fs.files, |fs.history|;
    leftover := {};
    NothingYet(fs.files, fs.history, dir, shares, Names(tmps));
    for i := 0 to |shares|
      invariant fs.Valid() && fs.files == WithShares(before, dir, shares, i)
      invariant forall k | 0 <= k < i :: faults[k].NoFault?
      invariant old(fs.history) <= fs.history
      invariant SharesAppear(fs.history, started, before, dir, shares, Names(tmps))
    {
      TempIsFresh(tmps, before, dir, shares, i);
      var target := SharePath(dir, shares[i][0] as int);
      ghost var was, states := fs.files, fs.history;
      var done, commit := AtomicWrite(fs, target, shares[i][1..], tmps[i], faults[i], unlinkFails);
      PassageShows(fs.history, |states|, commit, before, dir, shares, tmps, i);
      assert fs.history[..|states|] == states;
      AppearTogether(fs.history, started, |states|, before, dir, shares, Names(tmps));
      assert was[target := shares[i][1..]] == WithShares(before, dir, shares, i + 1) by { OneMore(before, dir, shares, i); }
      if !done {
        assert faults[i] in faults;
        return false, if Commits(faults[i]) then i + 1 else i, {tmps[i]};
      }
      assert fs.files == fs.files - {tmps[i]};
    }
    written := |shares|;
    completed := true;
    assert fs.files - {} == fs.files;
  }

  lemma NothingYet(files: Files, history: seq<Files>, dir: Path, shares: seq<Bytes>, tmps: set<Path>)
    requires [] !in shares
    ensures WithShares(files, dir, shares, 0) == files && SharesAppear(history, |history|, files, dir, shares, tmps)
  {}

  lemma OneMore(files: Files, dir: Path, shares: seq<Bytes>, i: nat)
    requires i < |shares| && [] !in shares
    ensures WithShares(files, dir, shares, i + 1) ==
            WithShares(files, dir, shares, i)[SharePath(dir, shares[i][0] as int) := shares[i][1..]]
  {
    hide SharePath;
  }

  lemma TempIsFresh(tmps: seq<Path>, files: Files, dir: Path, shares: seq<Bytes>, i: nat)
    requires i < |shares| && [] !in shares && FreshTemps(tmps, files, dir, |shares|)
    ensures |tmps| == |shares| && tmps[i] !in WithShares(files, dir, shares, i)
    ensures tmps[i] != SharePath(dir, shares[i][0] as int)
  {
    hide SharePath, WithShares;
    TempsStayFresh(tmps, files, dir, shares, i);
  }

  /** Writing shares touches no file that is not one of theirs. */
  lemma {:induction false} OtherFilesStay(files: Files, dir: Path, shares: seq<Bytes>, n: nat, path: Path)
    requires n <= |shares| && [] !in shares
    requires forall k | 0 <= k < n :: path != SharePath(dir, shares[k][0] as int)
    ensures path in WithShares(files, dir, shares, n) <==> path in files
    ensures path in files ==> WithShares(files, dir, shares, n)[path] == files[path]
  {
    hide SharePath;
    if n > 0 {
      OtherFilesStay(files, dir, shares, n - 1, path);
    }
  }

  datatype SplitWorld = SplitWorld(
    unreadable: bool, sources: Sources, page: nat, pin: PinAnswer, unpinRefused: bool,
    entropy: Shamir.Entropy, tmps: seq<Path>, faults: seq<Fault>, unlinkFails: bool
  )

  /** The shares the split command makes of a key. */
  function SharesOf(hash: Shamir.Hash, key: Bytes, threshold: nat, n: nat, entropy: Shamir.Entropy): (shares: seq<Bytes>)
    requires 2 <= threshold <= n <= 255
    ensures |shares| == n && [] !in shares
  {
    Shamir.Shares(Shamir.Payload(hash, key), Shamir.Drawn(entropy, threshold, |key| + Shamir.CHECKSUM_LEN), threshold, n)
  }

  /** The holder's block of the split command: whatever the exit, the plaintext is erased. */
  method HoldAndSplit(hash: Shamir.Hash, key: Bytes, threshold: int, n: int, w: SplitWorld)
    returns (result: Result<seq<Bytes>, Failure>, holder: SecretHolder?)
    requires w.page > 0
    ensures result == Err(Failure.Reported) <==> key != [] && threshold > n
    ensures result.Ok? <==> key != [] && 2 <= threshold <= n <= 255 && Shamir.Supplies(w.entropy, threshold, |key| + Shamir.CHECKSUM_LEN)
    ensures result.Ok? ==> result.value == SharesOf(hash, key, threshold, n, w.entropy)
    ensures holder == null <==> key == []
    ensures holder != null ==> fresh(holder) && holder.released && holder.zeroized && AllZero(holder.data.bytes)
  {
    hide Shamir.Supplies, Held;
    holder := Create(key, w.page, w.pin);
    if holder == null {
      return Err(Uncaught), null;
    }
    HeldContent(key, w.page, w.pin);
    if threshold > n {
      var observed := holder.DoRelease(Completes, Unpinned(w.unpinRefused));
      return Err(Failure.Reported), holder;
    }
    var view := holder.GetView();
    assert view.value.Content() == key;
    var shares, payload := Shamir.Split(hash, view.value, threshold, n, w.entropy);
    var observed := holder.DoRelease(Completes, Unpinned(w.unpinRefused));
    result := if shares.Ok? then Ok(shares.value) else Err(Uncaught);
  }

  /** Split the CA key into share files. The plaintext is erased before anything is written. On every
      exit, and in every state on the way, only share paths and temporary names differ from before,
      and each share path is wholly old or wholly new. */
  method SplitCaKey(pem: Pem, hash: Shamir.Hash, fs: FileSystem, keyPath: Path, dir: Path, threshold: int, n: int, w: SplitWorld)
    returns (exit: Exit, holder: SecretHolder?)
    requires fs.Valid() && w.page > 0
    requires 0 <= n ==> FreshTemps(w.tmps, fs.files, dir, n) && |w.faults| == n
    modifies fs
    ensures exit == ExitOne <==>
              || keyPath !in old(fs.files)
              || (!w.unreadable && LoadKey(pem, old(fs.files)[keyPath], w.sources).Err?)
              || (!w.unreadable && LoadKey(pem, old(fs.files)[keyPath], w.sources).value != [] && threshold > n)
    ensures exit == ExitOne ==> fs.files == old(fs.files) && fs.history == old(fs.history)
    ensures exit == Success <==>
              && Loadable(pem, old(fs.files), keyPath, w.unreadable, w.sources)
              && 2 <= threshold <= n <= 255
              && Shamir.Supplies(w.entropy, threshold, |LoadKey(pem, old(fs.files)[keyPath], w.sources).value| + Shamir.CHECKSUM_LEN)
              && forall f | f in w.faults :: f.NoFault?
    ensures exit == Success ==>
              var shares := SharesOf(hash, LoadKey(pem, old(fs.files)[keyPath], w.sources).value, threshold, n, w.entropy);
              fs.files == WithShares(old(fs.files), dir, shares, n)
    ensures old(fs.history) <= fs.history
    ensures fs.history != old(fs.history) ==>
              && Loadable(pem, old(fs.files), keyPath, w.unreadable, w.sources) && 2 <= threshold <= n <= 255
              && var shares := SharesOf(hash, LoadKey(pem, old(fs.files)[keyPath], w.sources).value, threshold, n, w.entropy);
                 SharesAppear(fs.history, |old(fs.history)|, old(fs.files), dir, shares, Names(w.tmps))
    ensures fs.Valid()
    ensures holder != null <==> Loadable(pem, old(fs.files), keyPath, w.unreadable, w.sources)
    ensures holder != null ==> holder.released && holder.zeroized && AllZero(holder.data.bytes)
  {
    hide LoadKey, WithShares, Shamir.Supplies, SharesOf, FreshTemps, SharesAppear;
    if keyPath !in fs.files {
      return ExitOne, null;
    }
    if w.unreadable {
      return Raised, null;
    }
    var loaded := LoadKey(pem, fs.files[keyPath], w.sources);
    if loaded.Err? {
      return ExitOne, null;
    }
    var shares, h := HoldAndSplit(hash, loaded.value, threshold, n, w);
    holder := h;
    if shares.Err? {
      return if shares.error.Reported? then ExitOne else Raised, holder;
    }
    var completed, written, leftover := WriteShares(fs, dir, shares.value, w.tmps, w.faults, w.unlinkFails);
    exit := if completed then Success else Raised;
  }

  lemma SharesHaveIds(hash: Shamir.Hash, key: Bytes, threshold: nat, n: nat, entropy: Shamir.Entropy)
    requires 2 <= threshold <= n <= 255
    ensures var shares := SharesOf(hash, key, threshold, n, entropy);
            forall i | 0 <= i < n :: shares[i] != [] && shares[i][0] as int == i + 1
  {
    hide Byte, Shamir.Shard;
    forall i | 0 <= i < n ensures SharesOf(hash, key, threshold, n, entropy)[i][0] as int == i + 1 {
      ByteValue(i + 1);
    }
  }

  // ----- restore

  datatype Request = FromShares(paths: seq<Path>) | FromBackup(path: Option<Path>) | UnknownMode

  function ReadShare(files: Files, path: Path): Result<Bytes, Failure> {
    if path !in files then Err(Failure.Reported)
    else match IdOf(path)
         case None => Err(Failure.Reported)
         case Some(id) => if 0 <= id < 256 then Ok([Byte(id)] + files[path]) else Err(Uncaught)
  }

  /** A share file is read exactly when it exists and its name ends in the number of a byte; the number
      becomes the first byte. Only a number that is no byte goes uncaught. */
  lemma ReadShareExactly(files: Files, path: Path, share: Bytes)
    ensures ReadShare(files, path) == Ok(share) <==>
            path in files && share != [] && IdOf(path) == Some(share[0] as int) && share[1..] == files[path]
    ensures ReadShare(files, path) == Err(Uncaught) <==>
            path in files && IdOf(path).Some? && !(0 <= IdOf(path).value < 256)
  {
    hide IdOf, Byte;
    if path in files && IdOf(path).Some? && 0 <= IdOf(path).value < 256 {
      ByteValue(IdOf(path).value);
      if share != [] && IdOf(path) == Some(share[0] as int) {
        ByteOfValue(share[0], IdOf(path).value);
        assert share == [share[0]] + share[1..];
      }
    }
  }

  /** All shares in the order given, or the first failure. */
  function ReadShares(files: Files, paths: seq<Path>): Result<seq<Bytes>, Failure> {
    if paths == [] then Ok([])
    else match ReadShares(files, paths[..|paths| - 1])
         case Err(f) => Err(f)
         case Ok(shares) =>
           match ReadShare(files, paths[|paths| - 1])
           case Err(f) => Err(f)
           case Ok(share) => Ok(shares + [share])
  }

  lemma {:induction false} ReadSharesFails(files: Files, paths: seq<Path>, i: nat)
    requires i <= |paths| && ReadShares(files, paths[..i]).Err?
    ensures ReadShares(files, paths) == ReadShares(files, paths[..i])
  {
    if i == |paths| {
      assert paths[..i] == paths;
    } else {
      assert paths[..|paths| - 1][..i] == paths[..i];
      ReadSharesFails(files, paths[..|paths| - 1], i);
    }
  }

  method ReadShareFiles(fs: FileSystem, paths: seq<Path>) returns (result: Result<seq<Bytes>, Failure>)
    ensures result == ReadShares(fs.files, paths)
  {
    hide ReadShare;
    var shares: seq<Bytes> := [];
    for i := 0 to |paths|
      invariant ReadShares(fs.files, paths[..i]) == Ok(shares)
    {
      assert paths[..i + 1][..i] == paths[..i];
      var share := ReadShare(fs.files, paths[i]);
      if share.Err? {
        assert ReadShares(fs.files, paths[..i + 1]) == Err(share.error);
        ReadSharesFails(fs.files, paths, i + 1);
        return Err(share.error);
      }
      shares := shares + [share.value];
    }
    assert paths[..|paths|] == paths;
    return Ok(shares);
  }

  /** The key material a restore request yields; `typed` is the backup passphrase, None off a terminal. */
  function Reconstructed(c: Ciphers, hash: Shamir.Hash, files: Files, request: Request, typed: Option<string>): Result<Bytes, Failure> {
    match request
    case FromShares(paths) =>
      if |paths| < 2 then Err(Failure.Reported)
      else (
        match ReadShares(files, paths)
        case Err(f) => Err(f)
        case Ok(shares) =>
          match Shamir.Combined(hash, shares)
          case Ok(secret) => Ok(secret)
          case Err(e) => if e.EmptyShare? || e.MissingThreshold? then Err(Uncaught) else Err(Failure.Reported)
      )
    case FromBackup(path) =>
      if path.None? || path.value !in files || typed.None? then Err(Failure.Reported)
      else (
        match RestoreBackup(c, files[path.value], typed.value)
        case Err(_) => Err(Failure.Reported)
        case Ok(key) => Ok(key)
      )
    case UnknownMode => Err(Failure.Reported)
  }

  /** A request of which every share file could be read goes uncaught exactly when the ids differ and
      each file holds the marker and nothing else. */
  lemma UncaughtExactly(c: Ciphers, hash: Shamir.Hash, files: Files, paths: seq<Path>, typed: Option<string>)
    requires |paths| >= 2 && ReadShares(files, paths).Ok?
    ensures [] !in ReadShares(files, paths).value && |ReadShares(files, paths).value| == |paths|
    ensures Reconstructed(c, hash, files, FromShares(paths), typed) == Err(Uncaught) <==>
            && Distinct(Shamir.Ids(ReadShares(files, paths).value))
            && forall s | s in ReadShares(files, paths).value :: s[1..] == Shamir.MAGIC
  {
    hide ReadShares, Shamir.Combined;
    ReadSharesShape(files, paths);
    MissingThresholdExactly(hash, ReadShares(files, paths).value);
  }

  lemma {:induction false} ReadSharesShape(files: Files, paths: seq<Path>)
    requires ReadShares(files, paths).Ok?
    ensures [] !in ReadShares(files, paths).value && |ReadShares(files, paths).value| == |paths|
  {
    hide IdOf, Byte;
    if paths != [] {
      ReadSharesShape(files, paths[..|paths| - 1]);
    }
  }

  /** Restore the CA key from shares or a backup. Unless the reconstruction succeeds nothing at all
      happens to any file; then the write is the at-rest restore of those bytes. All or nothing: every
      failure but an interrupt after the rename leaves every file as it was. */
  method RestoreCaKey(pem: Pem, c: Ciphers, hash: Shamir.Hash, fs: FileSystem, keyPath: Path, request: Request, typed: Option<string>, w: World)
    returns (exit: Exit, holder: SecretHolder?)
    requires fs.Valid() && w.page > 0 && w.tmp !in fs.files && w.tmp != keyPath
    modifies fs
    ensures var r := Reconstructed(c, hash, old(fs.files), request, typed);
            match r
            case Err(f) =>
              && exit == (if f == Uncaught then Raised else ExitOne)
              && fs.files == old(fs.files) && fs.history == old(fs.history) && holder == null
            case Ok(key) =>
              && exit == (match Decision(pem, old(fs.files), keyPath, key, w).0
                          case Done => Success case Rejected(_) => ExitOne case Crashed => Raised)
              && Step(pem, old(fs.files), fs.files, keyPath, Attempt(key, w))
              && Passed(pem, fs.history, old(fs.history), old(fs.files), keyPath, key, w)
              && (holder == null <==> key == [])
    ensures exit == Success <==>
              && Reconstructed(c, hash, old(fs.files), request, typed).Ok?
              && Restorable(pem, old(fs.files), keyPath, Reconstructed(c, hash, old(fs.files), request, typed).value, w)
              && w.fault.NoFault?
    ensures exit == Success && pem.Lawful() ==>
              var key := pem.parse(Reconstructed(c, hash, old(fs.files), request, typed).value);
              key.Some? && keyPath in fs.files && Carries(pem, fs.files[keyPath], w.sources, key.value)
    ensures exit != Success && !w.fault.InterruptedAfterReplace? ==> fs.files - {w.tmp} == old(fs.files)
    ensures holder != null ==> holder.released && holder.zeroized && AllZero(holder.data.bytes)
  {
    hide Decision, Restorable, Carries, Pem.Lawful, RestoreBackup, Passed;
    assert fs.files - {w.tmp} == fs.files;
    holder := null;
    var key: Bytes := [];
    match request {
      case UnknownMode =>
        return ExitOne, null;
      case FromBackup(path) =>
        if path.None? || path.value !in fs.files || typed.None? {
          return ExitOne, null;
        }
        var unsealed := RestoreBackup(c, fs.files[path.value], typed.value);
        if unsealed.Err? {
          return ExitOne, null;
        }
        key := unsealed.value;
      case FromShares(paths) =>
        if |paths| < 2 {
          return ExitOne, null;
        }
        var shares := ReadShareFiles(fs, paths);
        if shares.Err? {
          return if shares.error == Uncaught then Raised else ExitOne, null;
        }
        var combined := Shamir.Combine(hash, shares.value);
        if combined.Err? {
          return if combined.error.EmptyShare? || combined.error.MissingThreshold? then Raised else ExitOne, null;
        }
        key := combined.value;
    }
    ghost var before := fs.files;
    var outcome, h := Restore(pem, fs, keyPath, key, w);
    if outcome != Done {
      FailureLeavesFiles(pem, before, keyPath, key, w);
    }
    SuccessCarries(pem, before, fs.files, keyPath, key, w);
    holder := h;
    exit := match outcome case Done => Success case Rejected(_) => ExitOne case Crashed => Raised;
  }

  lemma SuccessCarries(pem: Pem, before: Files, after: Files, keyPath: Path, key: Bytes, w: World)
    requires Step(pem, before, after, keyPath, Attempt(key, w))
    ensures Decision(pem, before, keyPath, key, w).0 == Done <==> Restorable(pem, before, keyPath, key, w) && w.fault.NoFault?
    ensures Decision(pem, before, keyPath, key, w).0 == Done && pem.Lawful() ==>
              pem.parse(key).Some? && keyPath in after && Carries(pem, after[keyPath], w.sources, pem.parse(key).value)
  {
    hide Decision, Restorable, Carries, Pem.Lawful, LeavesTemp, Commits;
    DoneExactly(pem, before, keyPath, key, w);
    if Decision(pem, before, keyPath, key, w).0 == Done && pem.Lawful() {
      WrittenIsDecided(pem, before, keyPath, key, w);
      WrittenCarries(pem, before, keyPath, key, w);
      assert keyPath in after - {w.tmp};
    }
  }

  lemma WrittenIsDecided(pem: Pem, files: Files, target: Path, key: Bytes, w: World)
    requires Written(pem, files, target, key, w)
    ensures Decision(pem, files, target, key, w).1.Some?
    ensures AfterAttempt(pem, files, target, Attempt(key, w)) == files[target := Decision(pem, files, target, key, w).1.value]
  {
    hide Decision;
  }

  // ----- split, then restore

  function SharePaths(dir: Path, picks: seq<nat>): (paths: seq<Path>)
    ensures |paths| == |picks|
  {
    seq(|picks|, i requires 0 <= i < |picks| => SharePath(dir, picks[i] + 1))
  }

  /** What each share file holds once the split command is done. */
  lemma {:induction false} ShareFileContent(files: Files, dir: Path, shares: seq<Bytes>, m: nat, i: nat)
    requires i < m <= |shares| && [] !in shares
    requires forall k | 0 <= k < |shares| :: shares[k][0] as int == k + 1
    ensures var now := WithShares(files, dir, shares, m);
            SharePath(dir, i + 1) in now && now[SharePath(dir, i + 1)] == shares[i][1..]
  {
    hide SharePath, WithShares;
    OneMore(files, dir, shares, m - 1);
    if i < m - 1 {
      ShareFileContent(files, dir, shares, m - 1, i);
      if SharePath(dir, i + 1) == SharePath(dir, m) {
        SharePathsDistinct(dir, i + 1, m);
      }
    }
  }

  lemma ReadWrittenShare(hash: Shamir.Hash, files: Files, dir: Path, key: Bytes, threshold: nat, n: nat, entropy: Shamir.Entropy, i: nat)
    requires 2 <= threshold <= n <= 255 && i < n
    ensures var shares := SharesOf(hash, key, threshold, n, entropy);
            ReadShare(WithShares(files, dir, shares, n), SharePath(dir, i + 1)) == Ok(shares[i])
  {
    hide SharePath, IdOf, WithShares, Byte, Shamir.Shares;
    var shares := SharesOf(hash, key, threshold, n, entropy);
    SharesHaveIds(hash, key, threshold, n, entropy);
    ShareFileContent(files, dir, shares, n, i);
    IdOfSharePath(dir, i + 1);
    ByteOfValue(shares[i][0], i + 1);
    assert shares[i] == [shares[i][0]] + shares[i][1..];
  }

  lemma ReadNoShares(files: Files)
    ensures ReadShares(files, []) == Ok([])
  {}

  lemma ReadOneMore(files: Files, paths: seq<Path>, path: Path, shares: seq<Bytes>, share: Bytes)
    requires ReadShares(files, paths) == Ok(shares) && ReadShare(files, path) == Ok(share)
    ensures ReadShares(files, paths + [path]) == Ok(shares + [share])
  {
    hide ReadShare;
    assert (paths + [path])[..|paths|] == paths;
  }

  lemma {:induction false} ReadWrittenShares(hash: Shamir.Hash, files: Files, dir: Path, key: Bytes, threshold: nat, n: nat, entropy: Shamir.Entropy, picks: seq<nat>)
    requires 2 <= threshold <= n <= 255 && DistinctPicks(picks, n)
    ensures var shares := SharesOf(hash, key, threshold, n, entropy);
            ReadShares(WithShares(files, dir, shares, n), SharePaths(dir, picks)) == Ok(Picked(shares, picks))
    decreases |picks|
  {
    hide SharePath, ReadShare, WithShares, SharesOf, ReadShares;
    var shares := SharesOf(hash, key, threshold, n, entropy);
    var now := WithShares(files, dir, shares, n);
    if picks == [] {
      ReadNoShares(now);
      assert SharePaths(dir, picks) == [] && Picked(shares, picks) == [];
    } else {
      var most, last := picks[..|picks| - 1], picks[|picks| - 1];
      ReadWrittenShares(hash, files, dir, key, threshold, n, entropy, most);
      ReadWrittenShare(hash, files, dir, key, threshold, n, entropy, last);
      ReadOneMore(now, SharePaths(dir, most), SharePath(dir, last + 1), Picked(shares, most), shares[last]);
      assert SharePaths(dir, picks) == SharePaths(dir, most) + [SharePath(dir, last + 1)];
      assert Picked(shares, picks) == Picked(shares, most) + [shares[last]];
    }
  }

  /** Splitting the key and then restoring from any K or more of the written files, in any order,
      hands the original key bytes on; from fewer it reports an error. */
  lemma SplitThenRestore(c: Ciphers, hash: Shamir.Hash, files: Files, dir: Path, key: Bytes, threshold: nat, n: nat, entropy: Shamir.Entropy, picks: seq<nat>, typed: Option<string>)
    requires 2 <= threshold <= n <= 255 && DistinctPicks(picks, n)
    ensures var shares := SharesOf(hash, key, threshold, n, entropy);
            Reconstructed(c, hash, WithShares(files, dir, shares, n), FromShares(SharePaths(dir, picks)), typed) ==
               if |picks| >= threshold then Ok(key) else Err(Failure.Reported)
  {
    hide WithShares, ReadShares, Shamir.Combined, Shamir.Shares, Shamir.Payload, Shamir.Drawn, SharePath;
    ReadWrittenShares(hash, files, dir, key, threshold, n, entropy, picks);
    SharesHaveIds(hash, key, threshold, n, entropy);
    CombineOfSplit(hash, key, Shamir.Drawn(entropy, threshold, |key| + Shamir.CHECKSUM_LEN), threshold, n, picks);
  }

  /** The whole drill: the shares of a split key, restored over a key file that by then may hold any
      other key, in either format, bring the split key back in the format that was there, or leave
      every file alone. `now` is what the restore leaves. */
  lemma SharesBringKeyBack(pem: Pem, c: Ciphers, hash: Shamir.Hash, files: Files, dir: Path, key: Bytes, threshold: nat, n: nat,
                           entropy: Shamir.Entropy, picks: seq<nat>, keyPath: Path, w: World, now: Files, other: PrivateKey, passphrase: Option<string>)
    returns (opener: Option<string>)
    requires pem.Lawful() && 2 <= threshold <= n <= 255 && DistinctPicks(picks, n) && |picks| >= threshold
    requires var split := WithShares(files, dir, SharesOf(hash, key, threshold, n, entropy), n);
             Holds(pem, split, keyPath, other, passphrase) && Step(pem, split, now, keyPath, Attempt(key, w))
    ensures var split := WithShares(files, dir, SharesOf(hash, key, threshold, n, entropy), n);
            && Reconstructed(c, hash, split, FromShares(SharePaths(dir, picks)), None) == Ok(key)
            && (if Written(pem, split, keyPath, key, w)
                then
                  && pem.parse(key).Some? && Holds(pem, now, keyPath, pem.parse(key).value, opener)
                  && (opener.None? <==> passphrase.None?)
                else now - {w.tmp} == split)
            && (forall path | path in split && path != keyPath :: path in now && now[path] == split[path])
            && now.Keys <= split.Keys + if LeavesTemp(w.fault, w.unlinkFails) then {w.tmp} else {}
  {
    hide WithShares, Reconstructed, SharesOf, SharePaths, Acquire, Decision, Written, LeavesTemp;
    var split := WithShares(files, dir, SharesOf(hash, key, threshold, n, entropy), n);
    SplitThenRestore(c, hash, files, dir, key, threshold, n, entropy, picks, None);
    AttemptKeepsFormat(pem, split, keyPath, Attempt(key, w), other, passphrase);
    StepKeeps(pem, split, now, keyPath, Attempt(key, w));
    opener := if passphrase.None? || Acquire(w.sources).Err? then passphrase else Some(Acquire(w.sources).value);
  }

  /** From the key on disk to the key restored: the shares the split command makes of a key file,
      plaintext or sealed, give back that key. */
  lemma DiskKeyThroughShares(pem: Pem, c: Ciphers, hash: Shamir.Hash, files: Files, keyPath: Path, sources: Sources, dir: Path,
                             threshold: nat, n: nat, entropy: Shamir.Entropy, picks: seq<nat>, key: PrivateKey, passphrase: Option<string>)
    requires pem.Lawful() && Holds(pem, files, keyPath, key, passphrase)
    requires passphrase.Some? ==> Supplied(sources, passphrase.value)
    requires 2 <= threshold <= n <= 255 && DistinctPicks(picks, n) && |picks| >= threshold
    ensures LoadKey(pem, files[keyPath], sources).Ok?
    ensures var shares := SharesOf(hash, LoadKey(pem, files[keyPath], sources).value, threshold, n, entropy);
            var restored := Reconstructed(c, hash, WithShares(files, dir, shares, n), FromShares(SharePaths(dir, picks)), None);
            restored.Ok? && pem.parse(restored.value) == Some(key)
  {
    hide LoadKey, SharesOf, WithShares, Reconstructed, SharePaths, DistinctPicks;
    LoadsTheKey(pem, files, keyPath, sources, key, passphrase);
    SplitThenRestore(c, hash, files, dir, LoadKey(pem, files[keyPath], sources).value, threshold, n, entropy, picks, None);
  }

  // ----- export

  datatype ExportWorld = ExportWorld(
    unreadable: bool, sources: Sources, page: nat, pin: PinAnswer, unpinRefused: bool,
    prompts: Option<seq<(string, string)>>, isSpace: char -> bool,
    salt: Bytes, nonce: Bytes, tmp: Path, fault: Fault, unlinkFails: bool
  )

  /** The blob an export writes of this key, if every prompt and check is passed. */
  function ExportOf(c: Ciphers, key: Bytes, w: ExportWorld): Option<Bytes> {
    if w.prompts.None? || FirstMatch(w.prompts.value).None? then None
    else match ExportBlob(c, w.isSpace, FirstMatch(w.prompts.value).value, w.salt, w.nonce, key)
         case Err(_) => None
         case Ok(blob) => Some(blob)
  }

  /** The states an export went through: none, or one atomic passage to the blob. */
  ghost predicate SealedPassage(history: seq<Files>, was: seq<Files>, before: Files, output: Path, blob: Option<Bytes>, tmp: Path) {
    && was <= history
    && match blob
       case None => history == was
       case Some(bytes) => exists commit :: AtomicPassage(history, |was|, commit, before, output, bytes, tmp)
  }

  /** The holder's block of the export command. */
  method PromptAndSeal(c: Ciphers, fs: FileSystem, key: Bytes, output: Path, w: ExportWorld) returns (exit: Exit)
    requires fs.Valid() && w.tmp !in fs.files && w.tmp != output
    modifies fs
    ensures fs.Valid() && (exit == Success <==> ExportOf(c, key, w).Some? && w.fault.NoFault?)
    ensures fs.files - {w.tmp} ==
            if ExportOf(c, key, w).Some? && Commits(w.fault) then old(fs.files)[output := ExportOf(c, key, w).value]
            else old(fs.files)
    ensures SealedPassage(fs.history, old(fs.history), old(fs.files), output, ExportOf(c, key, w), w.tmp)
  {
    hide ExportBlob, FirstMatch, AtomicPassage, LeavesTemp;
    assert fs.files - {w.tmp} == fs.files;
    exit := ExitOne;
    if w.prompts.Some? {
      var typed := PromptTwice(w.prompts.value);
      if typed.None? {
        exit := Raised;
      } else {
        var blob := ExportBlob(c, w.isSpace, typed.value, w.salt, w.nonce, key);
        if blob.Ok? {
          var completed, commit := AtomicWrite(fs, output, blob.value, w.tmp, w.fault, w.unlinkFails);
          exit := if completed then Success else Raised;
        }
      }
    }
  }

  /** Export the CA key as a sealed backup. `prompts` is what is typed, None off a terminal. */
  method ExportCaKey(pem: Pem, c: Ciphers, fs: FileSystem, keyPath: Path, output: Path, w: ExportWorld)
    returns (exit: Exit, holder: SecretHolder?)
    requires fs.Valid() && w.page > 0 && w.tmp !in fs.files && w.tmp != output
    modifies fs
    ensures exit != Success && !w.fault.InterruptedAfterReplace? ==> fs.files - {w.tmp} == old(fs.files)
    ensures exit == Success <==>
              && Loadable(pem, old(fs.files), keyPath, w.unreadable, w.sources)
              && ExportOf(c, LoadKey(pem, old(fs.files)[keyPath], w.sources).value, w).Some?
              && w.fault.NoFault?
    ensures exit == Success ==>
              fs.files - {w.tmp} ==
              old(fs.files)[output := ExportOf(c, LoadKey(pem, old(fs.files)[keyPath], w.sources).value, w).value]
    ensures SealedPassage(fs.history, old(fs.history), old(fs.files), output,
                          if Loadable(pem, old(fs.files), keyPath, w.unreadable, w.sources)
                          then ExportOf(c, LoadKey(pem, old(fs.files)[keyPath], w.sources).value, w) else None, w.tmp)
    ensures holder != null <==> Loadable(pem, old(fs.files), keyPath, w.unreadable, w.sources)
    ensures holder != null ==> holder.released && holder.zeroized && AllZero(holder.data.bytes)
  {
    hide ExportOf, LoadKey, Held, AtomicPassage;
    assert fs.files - {w.tmp} == fs.files;
    holder := null;
    if keyPath !in fs.files {
      return ExitOne, null;
    }
    if w.unreadable {
      return Raised, null;
    }
    var loaded := LoadKey(pem, fs.files[keyPath], w.sources);
    if loaded.Err? {
      return ExitOne, null;
    }
    var key := loaded.value;
    holder := Create(key, w.page, w.pin);
    if holder == null {
      return Raised, null;
    }
    HeldContent(key, w.page, w.pin);
    var view := holder.GetView();
    assert view.value.Content() == key;
    exit := PromptAndSeal(c, fs, view.value.Content(), output, w);
    var observed := holder.DoRelease(Completes, Unpinned(w.unpinRefused));
  }

  /** A backup just exported restores, with the passphrase that sealed it, to the key it was made of. */
  lemma ExportThenRestoreFile(c: Ciphers, hash: Shamir.Hash, files: Files, output: Path, isSpace: char -> bool, p: string, salt: Bytes, nonce: Bytes, key: Bytes)
    requires c.Lawful() && |salt| == 16 && |nonce| == 12
    requires ExportBlob(c, isSpace, p, salt, nonce, key).Ok?
    ensures var now := files[output := ExportBlob(c, isSpace, p, salt, nonce, key).value];
            Reconstructed(c, hash, now, FromBackup(Some(output)), Some(p)) == Ok(key)
  {
    ExportThenRestore(c, isSpace, p, salt, nonce, key);
    hide RestoreBackup, ExportBlob;
  }

  /** The same through a backup: the blob the export command makes of a key file gives back its key. */
  lemma DiskKeyThroughBackup(pem: Pem, c: Ciphers, hash: Shamir.Hash, files: Files, keyPath: Path, output: Path, w: ExportWorld, key: PrivateKey, passphrase: Option<string>)
    requires pem.Lawful() && c.Lawful() && Holds(pem, files, keyPath, key, passphrase)
    requires passphrase.Some? ==> Supplied(w.sources, passphrase.value)
    requires |w.salt| == 16 && |w.nonce| == 12
    ensures LoadKey(pem, files[keyPath], w.sources).Ok?
    ensures var blob := ExportOf(c, LoadKey(pem, files[keyPath], w.sources).value, w);
            blob.Some? ==>
              && w.prompts.Some? && FirstMatch(w.prompts.value).Some?
              && var restored := Reconstructed(c, hash, files[output := blob.value], FromBackup(Some(output)), FirstMatch(w.prompts.value));
                 restored.Ok? && pem.parse(restored.value) == Some(key)
  {
    hide LoadKey, Reconstructed, ExportBlob, FirstMatch;
    LoadsTheKey(pem, files, keyPath, w.sources, key, passphrase);
    var loaded := LoadKey(pem, files[keyPath], w.sources).value;
    if ExportOf(c, loaded, w).Some? {
      ExportThenRestoreFile(c, hash, files, output, w.isSpace, FirstMatch(w.prompts.value).value, w.salt, w.nonce, loaded);
    }
  }
}
