/** Files by path, changed one system call at a time. The ghost history keeps every state the files
    went through, so that a crash or a reader at any moment is one of its entries. */
module FileSystems {
  import opened ByteArrays

  type Path = string

  type Files = map<Path, Bytes>

  class FileSystem {
    var files: Files
    ghost var history: seq<Files>

    ghost predicate Valid()
      reads this
    {
      history != [] && history[|history| - 1] == files
    }

    /** mkstemp: a new, empty file under a name that did not exist. */
    method CreateTemp(tmp: Path)
      requires Valid() && tmp !in files
      modifies this
      ensures Valid() && files == old(files)[tmp := []] && history == old(history) + [files]
    {
      files := files[tmp := []];
      history := history + [files];
    }

    method Append(path: Path, data: Bytes)
      requires Valid() && path in files
      modifies this
      ensures Valid() && files == old(files)[path := old(files)[path] + data] && history == old(history) + [files]
    {
      files := files[path := files[path] + data];
      history := history + [files];
    }

    /** os.replace: atomic within the directory. */
    method Replace(src: Path, dst: Path)
      requires Valid() && src in files && src != dst
      modifies this
      ensures Valid() && files == (old(files) - {src})[dst := old(files)[src]] && history == old(history) + [files]
    {
      files := (files - {src})[dst := files[src]];
      history := history + [files];
    }

    method Unlink(path: Path)
      requires Valid()
      modifies this
      ensures Valid() && files == old(files) - {path} && history == old(history) + [files]
    {
      files := files - {path};
      history := history + [files];
    }
  }

  // ----- temp file, write, replace

  /** Where a write is stopped: by a failing system call, or by an interrupt once the new content is
      already in place. */
  datatype Fault =
    | NoFault
    | TempFails
    | WriteFails(written: nat)
    | SyncFails
    | ChmodFails
    | ReplaceFails
    | InterruptedAfterReplace

  predicate Commits(fault: Fault) { fault.NoFault? || fault.InterruptedAfterReplace? }

  /** A write that stops with a temporary file in place, and cannot unlink it. */
  predicate LeavesTemp(fault: Fault, unlinkFails: bool) {
    unlinkFails && !Commits(fault) && !fault.TempFails?
  }

  /** Every state from index `from` on leaves all files but the temporary one as they were. */
  ghost predicate OldSince(history: seq<Files>, from: nat, before: Files, tmp: Path) {
    forall i | from <= i < |history| :: history[i] - {tmp} == before
  }

  /** From index `from` on, the states are first all old and then, from `commit` on, all new: the
      target is never partly written, never reverts, and no other file is touched. */
  ghost predicate AtomicPassage(history: seq<Files>, from: nat, commit: nat, before: Files, target: Path, data: Bytes, tmp: Path) {
    && from <= commit <= |history|
    && OldSince(history[..commit], from, before, tmp)
    && forall i | commit <= i < |history| :: history[i] - {tmp} == before[target := data]
  }

  lemma OldNothing(history: seq<Files>, before: Files, tmp: Path)
    ensures OldSince(history, |history|, before, tmp)
  {}

  lemma OldLonger(history: seq<Files>, now: Files, from: nat, before: Files, tmp: Path)
    requires OldSince(history, from, before, tmp) && from <= |history| && now - {tmp} == before
    ensures OldSince(history + [now], from, before, tmp)
  {}

  lemma WithoutTemp(files: Files, tmp: Path, data: Bytes)
    ensures files[tmp := data] - {tmp} == files - {tmp} == files - {tmp} - {tmp}
    ensures tmp !in files ==> files - {tmp} == files
  {}

  /** The except branch: the temporary file goes, unless unlinking fails, and nothing else. */
  method Cleanup(fs: FileSystem, tmp: Path, unlinkFails: bool, ghost from: nat, ghost before: Files)
    requires fs.Valid() && tmp in fs.files && fs.files - {tmp} == before
    requires from <= |fs.history| && OldSince(fs.history, from, before, tmp)
    modifies fs
    ensures fs.Valid() && fs.files - {tmp} == before && (tmp in fs.files <==> unlinkFails)
    ensures old(fs.history) <= fs.history && OldSince(fs.history, from, before, tmp)
  {
    hide OldSince;
    if !unlinkFails {
      WithoutTemp(fs.files, tmp, []);
      OldLonger(fs.history, fs.files - {tmp}, from, before, tmp);
      fs.Unlink(tmp);
    }
  }

  /** Fills the new temporary file. */
  method FillTemp(fs: FileSystem, data: Bytes, tmp: Path)
    requires fs.Valid() && tmp !in fs.files
    modifies fs
    ensures fs.Valid() && fs.files - {tmp} == old(fs.files) && tmp in fs.files && fs.files[tmp] == data
    ensures old(fs.history) <= fs.history && OldSince(fs.history, |old(fs.history)|, old(fs.files), tmp)
  {
    hide OldSince;
    ghost var before, from := fs.files, |fs.history|;
    OldNothing(fs.history, before, tmp);
    WithoutTemp(before, tmp, []);
    OldLonger(fs.history, before[tmp := []], from, before, tmp);
    fs.CreateTemp(tmp);
    assert [] + data == data;
    WithoutTemp(fs.files, tmp, data);
    OldLonger(fs.history, fs.files[tmp := data], from, before, tmp);
    fs.Append(tmp, data);
  }

  method WriteTemp(fs: FileSystem, data: Bytes, tmp: Path, fault: Fault, unlinkFails: bool) returns (written: bool)
    requires fs.Valid() && tmp !in fs.files
    modifies fs
    ensures fs.Valid() && written == Commits(fault)
    ensures fs.files - {tmp} == old(fs.files)
    ensures written ==> tmp in fs.files && fs.files[tmp] == data
    ensures !written ==> (tmp in fs.files <==> LeavesTemp(fault, unlinkFails))
    ensures old(fs.history) <= fs.history && OldSince(fs.history, |old(fs.history)|, old(fs.files), tmp)
  {
    hide OldSince;
    ghost var before, from := fs.files, |fs.history|;
    if fault.TempFails? {
      OldNothing(fs.history, before, tmp);
      WithoutTemp(before, tmp, []);
      return false;
    }
    FillTemp(fs, if fault.WriteFails? && fault.written < |data| then data[..fault.written] else data, tmp);
    if !Commits(fault) {
      Cleanup(fs, tmp, unlinkFails, from, before);
      return false;
    }
    return true;
  }

  /** Write to a temporary file in the same directory, then rename over the target; on any failure
      the temporary file is unlinked, unless that fails too. */
  method AtomicWrite(fs: FileSystem, target: Path, data: Bytes, tmp: Path, fault: Fault, unlinkFails: bool)
    returns (completed: bool, ghost commit: nat)
    requires fs.Valid() && tmp !in fs.files && tmp != target
    modifies fs
    ensures fs.Valid() && (completed <==> fault.NoFault?)
    ensures fs.files - {tmp} == if Commits(fault) then old(fs.files)[target := data] else old(fs.files)
    ensures fs.files - {tmp} != old(fs.files) ==> fault.NoFault? || fault.InterruptedAfterReplace?
    ensures completed ==> target in fs.files && fs.files[target] == data
    ensures tmp in fs.files <==> LeavesTemp(fault, unlinkFails)
    ensures tmp in fs.files <==>
              unlinkFails && (fault.WriteFails? || fault.SyncFails? || fault.ChmodFails? || fault.ReplaceFails?)
    ensures old(fs.history) <= fs.history
    ensures AtomicPassage(fs.history, |old(fs.history)|, commit, old(fs.files), target, data, tmp)
    ensures commit < |fs.history| <==> Commits(fault)
  {
    var written := WriteTemp(fs, data, tmp, fault, unlinkFails);
    commit := |fs.history|;
    if !written {
      assert fs.history[..commit] == fs.history;
      return false, commit;
    }
    ghost var states := fs.history;
    fs.Replace(tmp, target);
    assert fs.files == old(fs.files)[target := data];
    assert fs.files - {tmp} == fs.files;
    assert fs.history[..commit] == states;
    return !fault.InterruptedAfterReplace?, commit;
  }
}
