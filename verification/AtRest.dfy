/** The CA key at rest: either a plaintext PEM file or one sealed under the server passphrase. The
    PEM library is opaque; `Lawful` names the only facts assumed of it. */
module AtRest {
  import opened ByteArrays
  import opened FileSystems
  import opened SecretHolders
  import opened Wrappers

  datatype Error = PassphraseRequired | DecryptFailed | NoPassphraseSource | WrongServerPassphrase | NotAPrivateKey

  /** A parsed private key, whatever the library holds of it. */
  datatype PrivateKey = PrivateKey(material: Bytes)

  /** The PEM codec: parsing without and with a passphrase, serialising without and with one (the
      last argument of `sealed` is the randomness of that encryption). */
  datatype Pem = Pem(
    parse: Bytes -> Option<PrivateKey>,
    open: (Bytes, string) -> Option<PrivateKey>,
    plain: PrivateKey -> Bytes,
    sealed: (PrivateKey, string, nat) -> Bytes
  ) {
    ghost predicate Lawful() {
      && (forall k: PrivateKey :: parse(plain(k)) == Some(k))
      && (forall k: PrivateKey, p: string, r: nat :: parse(sealed(k, p, r)) == None)
      && (forall k: PrivateKey, p: string, r: nat :: open(sealed(k, p, r), p) == Some(k))
    }
  }

  /** There are such codecs. */
  lemma LawfulPem() returns (pem: Pem)
    ensures pem.Lawful()
  {
    pem := Pem(
      data => if data != [] && data[0] == 0 then Some(PrivateKey(data[1..])) else None,
      (data, _) => if data != [] && data[0] == 1 then Some(PrivateKey(data[1..])) else None,
      (key: PrivateKey) => [0] + key.material,
      (key: PrivateKey, _: string, _: nat) => [1] + key.material
    );
    forall k: PrivateKey ensures ([0] + k.material)[1..] == k.material == ([1] + k.material)[1..] {}
  }

  function Unwrap(pem: Pem, data: Bytes, passphrase: Option<string>): Result<Bytes, Error> {
    if pem.parse(data).Some? then Ok(data)
    else if passphrase.None? || passphrase.value == "" then Err(PassphraseRequired)
    else match pem.open(data, passphrase.value)
         case None => Err(DecryptFailed)
         case Some(key) => Ok(pem.plain(key))
  }

  function Rewrap(pem: Pem, plaintext: Bytes, passphrase: Option<string>, random: nat): Result<Bytes, Error> {
    if passphrase.None? || passphrase.value == "" then Ok(plaintext)
    else match pem.parse(plaintext)
         case None => Err(NotAPrivateKey)
         case Some(key) => Ok(pem.sealed(key, passphrase.value, random))
  }

  /** Where a passphrase can come from: the environment variable, and what is typed at the prompt
      (None when standard input is not a terminal). */
  datatype Sources = Sources(env: Option<string>, typed: Option<string>) {
    predicate EnvSet() { env.Some? && env.value != "" }
  }

  function Acquire(sources: Sources): Result<string, Error> {
    if sources.EnvSet() then Ok(sources.env.value)
    else if sources.typed.None? then Err(NoPassphraseSource)
    else Ok(sources.typed.value)
  }

  /** The bytes a restore writes over what the target holds now. */
  function RestoreBytes(pem: Pem, existing: Option<Bytes>, plaintext: Bytes, sources: Sources, random: nat): Result<Bytes, Error> {
    match existing
    case Some(data) =>
      if Unwrap(pem, data, None).Ok? then Rewrap(pem, plaintext, None, random)
      else (
        match Acquire(sources)
        case Err(e) => Err(e)
        case Ok(p) =>
          if Unwrap(pem, data, Some(p)).Err? then Err(WrongServerPassphrase)
          else Rewrap(pem, plaintext, Some(p), random)
      )
    case None =>
      var p := if sources.EnvSet() then sources.env else sources.typed;
      Rewrap(pem, plaintext, p, random)
  }

  // ----- the restore write

  datatype Outcome = Done | Rejected(error: Error) | Crashed

  /** How the world answers during one restore. */
  datatype World = World(
    unreadable: bool, sources: Sources, random: nat,
    tmp: Path, fault: Fault, unlinkFails: bool,
    page: nat, pin: PinAnswer, unpinRefused: bool
  )

  function Existing(files: Files, target: Path): Option<Bytes> {
    if target in files then Some(files[target]) else None
  }

  /** Whether the restore gets as far as writing, and what. */
  function Decision(pem: Pem, files: Files, target: Path, reconstructed: Bytes, w: World): (Outcome, Option<Bytes>) {
    if reconstructed == [] then (Crashed, None)
    else if pem.parse(reconstructed).None? then (Rejected(NotAPrivateKey), None)
    else if target in files && w.unreadable then (Crashed, None)
    else match RestoreBytes(pem, Existing(files, target), reconstructed, w.sources, w.random)
         case Err(e) => (Rejected(e), None)
         case Ok(bytes) => (if w.fault.NoFault? then Done else Crashed, Some(bytes))
  }

  predicate Written(pem: Pem, files: Files, target: Path, reconstructed: Bytes, w: World) {
    Decision(pem, files, target, reconstructed, w).1.Some? && Commits(w.fault)
  }

  /** The states a restore went through: none, or one atomic passage to the decided bytes. */
  ghost predicate Passed(pem: Pem, history: seq<Files>, was: seq<Files>, before: Files, target: Path, reconstructed: Bytes, w: World) {
    && was <= history
    && var bytes := Decision(pem, before, target, reconstructed, w).1;
       if bytes.Some?
       then exists commit :: AtomicPassage(history, |was|, commit, before, target, bytes.value, w.tmp)
       else history == was
  }

  /** What happens inside the holder's view: validate, decide the envelope, write atomically. */
  method WriteBack(pem: Pem, fs: FileSystem, target: Path, material: Bytes, w: World) returns (outcome: Outcome)
    requires fs.Valid() && w.tmp !in fs.files && w.tmp != target && material != []
    modifies fs
    ensures fs.Valid() && outcome == Decision(pem, old(fs.files), target, material, w).0
    ensures Step(pem, old(fs.files), fs.files, target, Attempt(material, w))
    ensures Passed(pem, fs.history, old(fs.history), old(fs.files), target, material, w)
  {
    hide RestoreBytes, AtomicPassage, LeavesTemp;
    assert fs.files - {w.tmp} == fs.files;
    if pem.parse(material).None? {
      outcome := Rejected(NotAPrivateKey);
    } else if target in fs.files && w.unreadable {
      outcome := Crashed;
    } else {
      var bytes := RestoreBytes(pem, Existing(fs.files, target), material, w.sources, w.random);
      match bytes {
        case Err(e) =>
          outcome := Rejected(e);
        case Ok(data) =>
          var completed, commit := AtomicWrite(fs, target, data, w.tmp, w.fault, w.unlinkFails);
          outcome := if completed then Done else Crashed;
      }
    }
  }

  /** The end of the restore command, from the reconstructed bytes to the file: hold, write back,
      erase. Whatever the exit, the plaintext is gone. */
  method Restore(pem: Pem, fs: FileSystem, target: Path, reconstructed: Bytes, w: World)
    returns (outcome: Outcome, holder: SecretHolder?)
    requires fs.Valid() && w.page > 0 && w.tmp !in fs.files && w.tmp != target
    modifies fs
    ensures fs.Valid() && outcome == Decision(pem, old(fs.files), target, reconstructed, w).0
    ensures Step(pem, old(fs.files), fs.files, target, Attempt(reconstructed, w))
    ensures Passed(pem, fs.history, old(fs.history), old(fs.files), target, reconstructed, w)
    ensures outcome != Done && !w.fault.InterruptedAfterReplace? ==> fs.files - {w.tmp} == old(fs.files)
    ensures holder == null <==> reconstructed == []
    ensures holder != null ==> fresh(holder) && fresh(holder.data) && holder.released && holder.zeroized && AllZero(holder.data.bytes)
  {
    hide Decision, Step, Passed, Held;
    NothingToHold(pem, fs.files, fs.history, target, w);
    holder := Create(reconstructed, w.page, w.pin);
    if holder == null {
      return Crashed, null;
    }
    HeldContent(reconstructed, w.page, w.pin);
    var view := holder.GetView();
    assert view.value.Content() == reconstructed;
    ghost var before := fs.files;
    outcome := WriteBack(pem, fs, target, view.value.Content(), w);
    FailedStep(pem, before, fs.files, target, reconstructed, w);
    var observed := holder.DoRelease(Completes, Unpinned(w.unpinRefused));
  }

  lemma NothingToHold(pem: Pem, files: Files, history: seq<Files>, target: Path, w: World)
    requires w.tmp !in files && w.tmp != target
    ensures Decision(pem, files, target, [], w) == (Crashed, None) && Step(pem, files, files, target, Attempt([], w))
    ensures Passed(pem, history, history, files, target, [], w) && files - {w.tmp} == files
  {}

  lemma FailedStep(pem: Pem, before: Files, after: Files, target: Path, reconstructed: Bytes, w: World)
    requires Step(pem, before, after, target, Attempt(reconstructed, w))
    ensures Decision(pem, before, target, reconstructed, w).0 != Done && !w.fault.InterruptedAfterReplace? ==>
              after - {w.tmp} == before
  {
    hide RestoreBytes, LeavesTemp;
    if Decision(pem, before, target, reconstructed, w).0 != Done {
      FailureLeavesFiles(pem, before, target, reconstructed, w);
    }
  }

  function Unpinned(refused: bool): UnpinRun { if refused then Refuses else Unpins }

  lemma HeldContent(secret: Bytes, page: nat, pin: PinAnswer)
    requires page > 0
    ensures var s := Held(secret, page, pin);
            !s.released && s.length <= |s.buffer| && s.buffer[..s.length] == secret
  {
    RoundToPageIsLeast(|secret|, page);
  }

  // ----- what the answers mean

  /** The environment's passphrase, or the one typed when the environment has none. */
  predicate Supplied(sources: Sources, p: string) {
    || (sources.env == Some(p) && p != "")
    || ((sources.env == None || sources.env == Some("")) && sources.typed == Some(p))
  }

  lemma AcquiresExactly(sources: Sources, p: string)
    ensures Acquire(sources) == Ok(p) <==> Supplied(sources, p)
    ensures Acquire(sources).Err? <==> (sources.env == None || sources.env == Some("")) && sources.typed.None?
    ensures sources.EnvSet() <==> sources.env != None && sources.env != Some("")
  {}

  /** A supplied, non-empty passphrase opens this key file. */
  predicate Opener(pem: Pem, data: Bytes, sources: Sources, p: string) {
    Supplied(sources, p) && p != "" && pem.open(data, p).Some?
  }

  /** Bytes that parse are passed through; others need a passphrase that opens them, and come out in
      the library's own plaintext. */
  lemma UnwrapsExactly(pem: Pem, data: Bytes, passphrase: Option<string>, plaintext: Bytes)
    ensures Unwrap(pem, data, passphrase) == Ok(plaintext) <==>
            if pem.parse(data).Some? then plaintext == data
            else exists p, k :: passphrase == Some(p) && p != "" && pem.open(data, p) == Some(k) && plaintext == pem.plain(k)
  {}

  /** A restore writes exactly when the bytes are a key and the target is absent, or can be read and
      is plaintext or opened by a supplied passphrase. */
  ghost predicate Restorable(pem: Pem, files: Files, target: Path, reconstructed: Bytes, w: World) {
    && reconstructed != [] && pem.parse(reconstructed).Some?
    && (target in files ==>
          && !w.unreadable
          && (pem.parse(files[target]).Some? || exists p :: Opener(pem, files[target], w.sources, p)))
  }

  lemma RestorableExactly(pem: Pem, files: Files, target: Path, reconstructed: Bytes, w: World)
    ensures Decision(pem, files, target, reconstructed, w).1.Some? <==> Restorable(pem, files, target, reconstructed, w)
  {
    if target in files && pem.parse(files[target]).None? {
      if exists p :: Opener(pem, files[target], w.sources, p) {
        var p :| Opener(pem, files[target], w.sources, p);
        AcquiresExactly(w.sources, p);
      }
      if Acquire(w.sources).Ok? {
        AcquiresExactly(w.sources, Acquire(w.sources).value);
        assert pem.open(files[target], Acquire(w.sources).value).Some? && Acquire(w.sources).value != "" ==>
               Opener(pem, files[target], w.sources, Acquire(w.sources).value);
      }
    }
  }

  /** Done means written: the restore succeeds exactly when there is something to write and the write
      completes, and bytes that are no key are refused as such. */
  lemma DoneExactly(pem: Pem, files: Files, target: Path, reconstructed: Bytes, w: World)
    ensures Decision(pem, files, target, reconstructed, w).0 == Done <==>
            Restorable(pem, files, target, reconstructed, w) && w.fault.NoFault?
    ensures Decision(pem, files, target, reconstructed, w).0 == Done ==> Written(pem, files, target, reconstructed, w)
    ensures reconstructed != [] && pem.parse(reconstructed).None? ==>
              Decision(pem, files, target, reconstructed, w) == (Rejected(NotAPrivateKey), None)
  {
    RestorableExactly(pem, files, target, reconstructed, w);
    hide RestoreBytes, Restorable;
  }

  /** Plaintext of this key, or sealed under a supplied passphrase. */
  ghost predicate Carries(pem: Pem, data: Bytes, sources: Sources, key: PrivateKey) {
    pem.parse(data) == Some(key) ||
    (pem.parse(data) == None && exists p :: Opener(pem, data, sources, p) && pem.open(data, p) == Some(key))
  }

  /** What is written carries the restored key, in the format that was there. */
  lemma WrittenCarries(pem: Pem, files: Files, target: Path, reconstructed: Bytes, w: World)
    requires pem.Lawful() && Decision(pem, files, target, reconstructed, w).1.Some?
    ensures pem.parse(reconstructed).Some?
    ensures var bytes := Decision(pem, files, target, reconstructed, w).1.value;
            && Carries(pem, bytes, w.sources, pem.parse(reconstructed).value)
            && (target in files ==> (pem.parse(bytes).Some? <==> pem.parse(files[target]).Some?))
  {
    var bytes, key := Decision(pem, files, target, reconstructed, w).1.value, pem.parse(reconstructed).value;
    if target in files && pem.parse(files[target]).None? {
      EncryptedStaysEncrypted(pem, files, target, reconstructed, w);
      AcquiresExactly(w.sources, Acquire(w.sources).value);
      assert Opener(pem, bytes, w.sources, Acquire(w.sources).value);
    } else if target in files {
      PlaintextStaysPlaintext(pem, files, target, reconstructed, w);
    } else {
      AbsentTarget(pem, files, target, reconstructed, w);
    }
  }

  // ----- what a restore keeps

  /** Every failure leaves every file as it was, the target included, with one exception: an
      interrupt that arrives after the rename reports failure over a finished write. */
  lemma FailureLeavesFiles(pem: Pem, files: Files, target: Path, reconstructed: Bytes, w: World)
    requires Decision(pem, files, target, reconstructed, w).0 != Done
    ensures Written(pem, files, target, reconstructed, w) <==>
            Decision(pem, files, target, reconstructed, w).1.Some? && w.fault.InterruptedAfterReplace?
  {}

  /** A plaintext target stays plaintext: it receives exactly the reconstructed bytes, whatever
      passphrases are around. */
  lemma PlaintextStaysPlaintext(pem: Pem, files: Files, target: Path, reconstructed: Bytes, w: World)
    requires target in files && pem.parse(files[target]).Some?
    ensures Decision(pem, files, target, reconstructed, w).1 ==
            if reconstructed == [] || pem.parse(reconstructed).None? || w.unreadable then None else Some(reconstructed)
  {}

  /** An encrypted target is written only under a passphrase that opens what is there now, stays
      encrypted under it, and unwraps to the restored key; to the very bytes that were restored
      exactly when those are in the library's own serialisation. */
  lemma EncryptedStaysEncrypted(pem: Pem, files: Files, target: Path, reconstructed: Bytes, w: World)
    requires pem.Lawful() && target in files && pem.parse(files[target]).None?
    requires Decision(pem, files, target, reconstructed, w).1.Some?
    ensures Acquire(w.sources).Ok? && Acquire(w.sources).value != ""
    ensures var p, key := Acquire(w.sources).value, pem.parse(reconstructed).value;
            var bytes := Decision(pem, files, target, reconstructed, w).1.value;
            && pem.open(files[target], p).Some?
            && pem.parse(bytes).None?
            && pem.open(bytes, p) == Some(key)
            && Unwrap(pem, bytes, Some(p)) == Ok(pem.plain(key))
            && pem.parse(pem.plain(key)) == Some(key)
            && (Unwrap(pem, bytes, Some(p)) == Ok(reconstructed) <==> reconstructed == pem.plain(key))
  {}

  /** An encrypted target is refused, before anything is written, exactly when no passphrase can be
      had or the one given does not open it. */
  lemma EncryptedRefusal(pem: Pem, files: Files, target: Path, reconstructed: Bytes, w: World)
    requires target in files && pem.parse(files[target]).None? && !w.unreadable && pem.parse(reconstructed).Some?
    requires reconstructed != []
    ensures Decision(pem, files, target, reconstructed, w).0.Rejected? <==>
            Acquire(w.sources).Err? || Acquire(w.sources).value == "" ||
            pem.open(files[target], Acquire(w.sources).value).None?
    ensures Decision(pem, files, target, reconstructed, w).0.Rejected? ==>
              Decision(pem, files, target, reconstructed, w) ==
              (Rejected(if Acquire(w.sources).Err? then NoPassphraseSource else WrongServerPassphrase), None)
  {}

  /** A target that does not exist yet is encrypted exactly when a passphrase is known. */
  lemma AbsentTarget(pem: Pem, files: Files, target: Path, reconstructed: Bytes, w: World)
    requires pem.Lawful() && target !in files && reconstructed != [] && pem.parse(reconstructed).Some?
    ensures var bytes := Decision(pem, files, target, reconstructed, w).1;
            && bytes.Some?
            && (pem.parse(bytes.value).None? <==>
                w.sources.EnvSet() || (w.sources.typed.Some? && w.sources.typed.value != ""))
            && (pem.parse(bytes.value).Some? ==> bytes.value == reconstructed)
            && (pem.parse(bytes.value).None? ==>
                  exists p :: Opener(pem, bytes.value, w.sources, p) && pem.open(bytes.value, p) == pem.parse(reconstructed))
  {
    var p := if w.sources.EnvSet() then w.sources.env else w.sources.typed;
    if p.Some? && p.value != "" {
      assert Opener(pem, pem.sealed(pem.parse(reconstructed).value, p.value, w.random), w.sources, p.value);
    }
  }

  // ----- over every run of restores

  datatype Attempt = Attempt(reconstructed: Bytes, world: World)

  /** What one restore leaves, but for its temporary file. */
  function AfterAttempt(pem: Pem, files: Files, target: Path, a: Attempt): Files {
    if Written(pem, files, target, a.reconstructed, a.world)
    then files[target := Decision(pem, files, target, a.reconstructed, a.world).1.value]
    else files
  }

  /** The temporary file is new, and stays exactly when the write fails and so does unlinking it. */
  ghost predicate Step(pem: Pem, before: Files, after: Files, target: Path, a: Attempt) {
    var tmp := a.world.tmp;
    && tmp !in before && tmp != target
    && after - {tmp} == AfterAttempt(pem, before, target, a)
    && (tmp in after <==>
          Decision(pem, before, target, a.reconstructed, a.world).1.Some? && LeavesTemp(a.world.fault, a.world.unlinkFails))
  }

  /** The files before each attempt of a run, and after the last one. */
  ghost predicate Run(pem: Pem, states: seq<Files>, target: Path, attempts: seq<Attempt>) {
    && |states| == |attempts| + 1
    && forall i | 0 <= i < |attempts| :: Step(pem, states[i], states[i + 1], target, attempts[i])
  }

  /** The temporary names the first n attempts may have left behind. */
  function Leftovers(attempts: seq<Attempt>, n: nat): set<Path>
    requires n <= |attempts|
  {
    if n == 0 then {}
    else
      var w := attempts[n - 1].world;
      Leftovers(attempts, n - 1) + if LeavesTemp(w.fault, w.unlinkFails) then {w.tmp} else {}
  }

  /** What the target holds: its key, and the passphrase that opens it if it is encrypted. */
  ghost predicate Holds(pem: Pem, files: Files, target: Path, key: PrivateKey, passphrase: Option<string>) {
    && target in files
    && match passphrase
       case None => pem.parse(files[target]) == Some(key)
       case Some(p) => p != "" && pem.parse(files[target]) == None && pem.open(files[target], p) == Some(key)
  }

  lemma AttemptKeepsFormat(pem: Pem, files: Files, target: Path, a: Attempt, key: PrivateKey, passphrase: Option<string>)
    requires pem.Lawful() && Holds(pem, files, target, key, passphrase)
    ensures var now := AfterAttempt(pem, files, target, a);
            if Written(pem, files, target, a.reconstructed, a.world)
            then
              && pem.parse(a.reconstructed).Some?
              && (passphrase.Some? ==> Acquire(a.world.sources).Ok?)
              && Holds(pem, now, target, pem.parse(a.reconstructed).value,
                       if passphrase.None? then None else Some(Acquire(a.world.sources).value))
            else now == files
  {
    if Written(pem, files, target, a.reconstructed, a.world) {
      if passphrase.None? {
        PlaintextStaysPlaintext(pem, files, target, a.reconstructed, a.world);
      } else {
        EncryptedStaysEncrypted(pem, files, target, a.reconstructed, a.world);
      }
    }
  }

  /** The key of the last restore that was written, or the original one. */
  function LastKey(pem: Pem, states: seq<Files>, target: Path, attempts: seq<Attempt>, i: nat, key: PrivateKey): PrivateKey
    requires i <= |attempts| < |states|
  {
    if i == 0 then key
    else
      var before, a := states[i - 1], attempts[i - 1];
      var parsed := pem.parse(a.reconstructed);
      if Written(pem, before, target, a.reconstructed, a.world) && parsed.Some? then parsed.value
      else LastKey(pem, states, target, attempts, i - 1, key)
  }

  /** Over every run of restores, whatever passphrases, faults and interrupts they meet, the target
      is never lost, never changes between plaintext and encrypted, and holds the key of the last
      restore that was written. Every other file keeps its bytes, and the only new ones are the
      temporary files of failed writes that could not be unlinked. */
  lemma {:induction false} FormatNeverChanges(pem: Pem, states: seq<Files>, target: Path, attempts: seq<Attempt>, i: nat, key: PrivateKey, passphrase: Option<string>)
    returns (opener: Option<string>)
    requires pem.Lawful() && Run(pem, states, target, attempts) && i <= |attempts|
    requires Holds(pem, states[0], target, key, passphrase)
    ensures Holds(pem, states[i], target, LastKey(pem, states, target, attempts, i, key), opener)
    ensures opener.None? <==> passphrase.None?
    ensures forall path | path in states[0] && path != target :: path in states[i] && states[i][path] == states[0][path]
    ensures states[i].Keys <= states[0].Keys + Leftovers(attempts, i)
  {
    if i == 0 {
      return passphrase;
    }
    opener := FormatNeverChanges(pem, states, target, attempts, i - 1, key, passphrase);
    hide Written, Decision, Acquire, Pem.Lawful, LeavesTemp, Commits;
    var before, after, a := states[i - 1], states[i], attempts[i - 1];
    assert Step(pem, before, states[i - 1 + 1], target, a);
    AttemptKeepsFormat(pem, before, target, a, LastKey(pem, states, target, attempts, i - 1, key), opener);
    StepKeeps(pem, before, after, target, a);
    if Written(pem, before, target, a.reconstructed, a.world) {
      opener := if opener.None? then None else Some(Acquire(a.world.sources).value);
    }
  }

  lemma StepKeeps(pem: Pem, before: Files, after: Files, target: Path, a: Attempt)
    requires Step(pem, before, after, target, a) && target in before
    ensures target in after && after[target] == AfterAttempt(pem, before, target, a)[target]
    ensures forall path | path in before && path != target :: path in after && after[path] == before[path]
    ensures after.Keys <= before.Keys + if LeavesTemp(a.world.fault, a.world.unlinkFails) then {a.world.tmp} else {}
  {
    hide Written, Decision, LeavesTemp;
    var rest := after - {a.world.tmp};
    forall path | path in before ensures path in after && after[path] == rest[path] && path in rest {
      assert path != a.world.tmp;
    }
    forall path | path in after ensures path in before || (path == a.world.tmp && LeavesTemp(a.world.fault, a.world.unlinkFails)) {
      if path != a.world.tmp {
        assert path in rest;
      }
    }
  }
}
