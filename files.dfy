/** The save stage of docs_export (yuque.py:206-242): the text is written to
    `<target>.temp`, an existing target is moved to `<target>.bak` (after an
    older `.bak` is removed), and `os.replace` moves the temp file onto the
    target. The file system is a map from path to content; every operating
    system call that can fail takes its outcome as a parameter. */
module Files {
  type Files = map<string, string>

  const TempSuffix: string := ".temp"
  const BackupSuffix: string := ".bak"

  function TempPath(path: string): string {
    path + TempSuffix
  }

  function BackupPath(path: string): string {
    path + BackupSuffix
  }

  /** The last character of the two side files differs, so neither can be
      the other, nor the target, nor the side file of any other target. */
  lemma SideFilesDistinct(path: string, other: string)
    ensures TempPath(path) != BackupPath(other)
    ensures TempPath(path) != path && BackupPath(path) != path
  {
    assert TempPath(path)[|TempPath(path)| - 1] == 'p';
    assert BackupPath(other)[|BackupPath(other)| - 1] == 'k';
    assert |TempPath(path)| != |path| && |BackupPath(path)| != |path|;
  }

  /** How `open(temp, "w")` followed by `f.write(text)` ends: completely, with
      the open failing, or with the write stopping after `written` characters. */
  datatype TempWrite = Written | OpenFails | Interrupted(written: nat)

  /** The outcome of each call of the save stage that can raise. */
  datatype SaveFaults = SaveFaults(
    makedirsFails: bool,
    temp: TempWrite,
    removeFails: bool,
    renameFails: bool,
    replaceFails: bool)

  /** `os.rename` / `os.replace` on POSIX: the destination, if any, is
      overwritten and the source disappears. */
  function Rename(fs: Files, from: string, to: string): (r: Files)
    requires from in fs
    ensures to in r && r[to] == fs[from]
    ensures from != to ==> from !in r
    ensures forall p :: p != from && p != to ==> (p in r <==> p in fs) && (p in r ==> r[p] == fs[p])
  {
    (fs - {from})[to := fs[from]]
  }

  /** What the temp file holds after the write: the text, or the part of it
      written before the failure. */
  function TempContent(text: string, w: TempWrite): (r: string)
    ensures |r| <= |text| && r == text[..|r|]
    ensures w.Written? ==> r == text
  {
    match w
    case Interrupted(k) => if k < |text| then text[..k] else text
    case _ => text
  }

  /** `s` agrees with `fs` on every path except the target and its backup. */
  ghost predicate AgreesExceptTarget(fs: Files, s: Files, path: string) {
    forall p :: p != path && p != BackupPath(path) ==>
      (p in s <==> p in fs) && (p in s ==> s[p] == fs[p])
  }

  /** The states after each step of the backup block that takes effect:
      removing the old `.bak`, then renaming the target to `.bak`. A failure
      is logged and the block ends. */
  function BackupTrace(fs: Files, path: string, f: SaveFaults): (trace: seq<Files>)
    ensures forall i :: 0 <= i < |trace| ==> AgreesExceptTarget(fs, trace[i], path)
  {
    var bak := BackupPath(path);
    if path !in fs then []
    else if bak in fs then
      if f.removeFails then []
      else
        var removed := fs - {bak};
        if f.renameFails then [removed] else [removed, Rename(removed, path, bak)]
    else if f.renameFails then []
    else [Rename(fs, path, bak)]
  }

  function Last(trace: seq<Files>): Files
    requires |trace| > 0
  {
    trace[|trace| - 1]
  }

  /** Every state the file system passes through during the save stage, the
      starting state first. */
  function CommitTrace(fs: Files, path: string, text: string, f: SaveFaults): (trace: seq<Files>)
    ensures |trace| > 0 && trace[0] == fs
  {
    if f.makedirsFails || f.temp.OpenFails? then [fs]
    else
      var written := fs[TempPath(path) := TempContent(text, f.temp)];
      if f.temp.Interrupted? then [fs, written]
      else
        var backedUp := [fs, written] + BackupTrace(written, path, f);
        if f.replaceFails then backedUp
        else
          SideFilesDistinct(path, path);
          assert TempPath(path) in Last(backedUp);
          backedUp + [Rename(Last(backedUp), TempPath(path), path)]
  }

  /** Appending a trace's later states to a history that ends in its first
      state leaves the history ending in the trace's last state. */
  lemma LastAppend(history: seq<Files>, trace: seq<Files>)
    requires |history| > 0 && |trace| > 0 && Last(history) == trace[0]
    ensures Last(history + trace[1..]) == Last(trace)
  {
  }

  /** The save stage returns True exactly when the directory exists or is
      created, the temp file is fully written and the final replace works;
      a failed backup is only logged. */
  predicate CommitSucceeds(f: SaveFaults) {
    !f.makedirsFails && f.temp.Written? && !f.replaceFails
  }

  /** After a successful save the target holds the new text and the temp file is gone. */
  lemma CommitSuccessContent(fs: Files, path: string, text: string, f: SaveFaults)
    requires CommitSucceeds(f)
    ensures var s := Last(CommitTrace(fs, path, text, f));
      path in s && s[path] == text && TempPath(path) !in s
  {
    SideFilesDistinct(path, path);
    var written := fs[TempPath(path) := text];
    var backedUp := [fs, written] + BackupTrace(written, path, f);
    assert Last(backedUp)[TempPath(path)] == text;
  }

  /** The save stage touches only the target, its temp file and its backup. */
  lemma CommitFrame(fs: Files, path: string, text: string, f: SaveFaults)
    ensures forall i, p :: (0 <= i < |CommitTrace(fs, path, text, f)| &&
      p != path && p != TempPath(path) && p != BackupPath(path)) ==>
        (p in CommitTrace(fs, path, text, f)[i] <==> p in fs) &&
        (p in fs ==> CommitTrace(fs, path, text, f)[i][p] == fs[p])
  {
    var trace := CommitTrace(fs, path, text, f);
    if !(f.makedirsFails || f.temp.OpenFails? || f.temp.Interrupted?) {
      var written := fs[TempPath(path) := text];
      var backedUp := [fs, written] + BackupTrace(written, path, f);
      forall i | 2 <= i < |backedUp|
        ensures AgreesExceptTarget(written, backedUp[i], path)
      {
        assert backedUp[i] == BackupTrace(written, path, f)[i - 2];
      }
    }
  }

  /** At every point of the save stage the target holds its previous content
      or the complete new text, or it is absent and its previous content is
      in the backup: a crash never leaves a half-written target. */
  predicate Recoverable(old0: Files, s: Files, path: string, text: string) {
    if path in s then s[path] == text || (path in old0 && s[path] == old0[path])
    else path in old0 ==> BackupPath(path) in s && s[BackupPath(path)] == old0[path]
  }

  lemma CommitCrashSafe(fs: Files, path: string, text: string, f: SaveFaults)
    ensures forall i :: 0 <= i < |CommitTrace(fs, path, text, f)| ==>
      Recoverable(fs, CommitTrace(fs, path, text, f)[i], path, text)
  {
    SideFilesDistinct(path, path);
    if !(f.makedirsFails || f.temp.OpenFails?) {
      var written := fs[TempPath(path) := TempContent(text, f.temp)];
      assert Recoverable(fs, written, path, text);
      if !f.temp.Interrupted? {
        BackupRecoverable(written, fs, path, text, f);
        var backedUp := [fs, written] + BackupTrace(written, path, f);
        forall i | 2 <= i < |backedUp|
          ensures Recoverable(fs, backedUp[i], path, text)
        {
          assert backedUp[i] == BackupTrace(written, path, f)[i - 2];
        }
      }
    }
  }

  lemma BackupRecoverable(written: Files, fs: Files, path: string, text: string, f: SaveFaults)
    requires path in written <==> path in fs
    requires path in fs ==> written[path] == fs[path]
    requires BackupPath(path) in written <==> BackupPath(path) in fs
    ensures forall i :: 0 <= i < |BackupTrace(written, path, f)| ==>
      Recoverable(fs, BackupTrace(written, path, f)[i], path, text)
  {
    SideFilesDistinct(path, path);
  }

  /** A save that fails leaves the target as it was, or moved to the backup;
      it never leaves the new text or a part of it there. */
  lemma CommitFailureKeepsPrevious(fs: Files, path: string, text: string, f: SaveFaults)
    requires !CommitSucceeds(f)
    ensures var s := Last(CommitTrace(fs, path, text, f));
      (path in s ==> path in fs && s[path] == fs[path]) &&
      (path !in s && path in fs ==> BackupPath(path) in s && s[BackupPath(path)] == fs[path])
  {
    SideFilesDistinct(path, path);
    if !(f.makedirsFails || f.temp.OpenFails? || f.temp.Interrupted?) {
      var written := fs[TempPath(path) := text];
      BackupRecoverable(written, fs, path, text, f);
      BackupKeepsTarget(written, path, f);
    }
  }

  /** The backup block leaves the target either in place or moved to `.bak`. */
  lemma BackupKeepsTarget(fs: Files, path: string, f: SaveFaults)
    ensures var s := Last([fs] + BackupTrace(fs, path, f));
      (path in s ==> path in fs && s[path] == fs[path]) &&
      (path !in s && path in fs ==> BackupPath(path) in s && s[BackupPath(path)] == fs[path])
  {
    SideFilesDistinct(path, path);
  }

  /** A temp file that is not completely written leaves the target exactly as it was. */
  lemma TempFailureKeepsTarget(fs: Files, path: string, text: string, f: SaveFaults)
    requires f.makedirsFails || !f.temp.Written?
    ensures var s := Last(CommitTrace(fs, path, text, f));
      (path in s <==> path in fs) && (path in s ==> s[path] == fs[path]) &&
      (!f.makedirsFails && f.temp.Interrupted? ==>
        TempPath(path) in s && s[TempPath(path)] == TempContent(text, f.temp))
  {
    SideFilesDistinct(path, path);
  }

  /** When the target existed and the backup block worked, its previous
      content is in `.bak`, whether the final replace succeeds or not. */
  lemma BackupHoldsPrevious(fs: Files, path: string, text: string, f: SaveFaults)
    requires path in fs && !f.makedirsFails && f.temp.Written? && !f.renameFails
    requires BackupPath(path) in fs ==> !f.removeFails
    ensures var s := Last(CommitTrace(fs, path, text, f));
      BackupPath(path) in s && s[BackupPath(path)] == fs[path]
  {
    SideFilesDistinct(path, path);
    var written := fs[TempPath(path) := text];
    var backedUp := [fs, written] + BackupTrace(written, path, f);
    assert BackupPath(path) in Last(backedUp) && Last(backedUp)[BackupPath(path)] == fs[path];
  }

  /** A replace that fails after the backup worked leaves no target: the
      previous content is only in `.bak` and the new one only in `.temp`. */
  lemma ReplaceFailureAfterBackup(fs: Files, path: string, text: string, f: SaveFaults)
    requires path in fs && !f.makedirsFails && f.temp.Written? && !f.renameFails && f.replaceFails
    requires BackupPath(path) in fs ==> !f.removeFails
    ensures var s := Last(CommitTrace(fs, path, text, f));
      path !in s && s[BackupPath(path)] == fs[path] && s[TempPath(path)] == text
  {
    SideFilesDistinct(path, path);
    BackupHoldsPrevious(fs, path, text, f);
  }

  /** When the old `.bak` cannot be removed the save still succeeds, but the
      target's previous content is lost and `.bak` keeps the older one. */
  lemma StaleBackupOnRemoveFailure(fs: Files, path: string, text: string, f: SaveFaults)
    requires path in fs && BackupPath(path) in fs && f.removeFails && CommitSucceeds(f)
    ensures var s := Last(CommitTrace(fs, path, text, f));
      s[path] == text && BackupPath(path) in s && s[BackupPath(path)] == fs[BackupPath(path)]
  {
    SideFilesDistinct(path, path);
  }

  /** The file system the exports write to. `history` records every state it
      has been in, so that the crash-safety of the save stage can be stated
      about the states a method goes through. */
  class FileSystem {
    var files: Files
    ghost var history: seq<Files>

    ghost predicate Valid()
      reads this
    {
      |history| > 0 && Last(history) == files
    }

    constructor (files: Files)
      ensures Valid() && this.files == files && history == [files]
    {
      this.files := files;
      history := [files];
    }

    /** `open(path, "w")` and one `write`. */
    method WriteFile(path: string, text: string, w: TempWrite) returns (ok: bool)
      requires Valid()
      modifies this
      ensures Valid() && ok == w.Written?
      ensures if w.OpenFails? then files == old(files) && history == old(history)
        else files == old(files)[path := TempContent(text, w)] && history == old(history) + [files]
    {
      if w.OpenFails? {
        return false;
      }
      files := files[path := TempContent(text, w)];
      history := history + [files];
      ok := w.Written?;
    }

    /** `os.remove`. */
    method Remove(path: string, fails: bool) returns (ok: bool)
      requires Valid() && path in files
      modifies this
      ensures Valid() && ok == !fails
      ensures if fails then files == old(files) && history == old(history)
        else files == old(files) - {path} && history == old(history) + [files]
    {
      if fails {
        return false;
      }
      files := files - {path};
      history := history + [files];
      ok := true;
    }

    /** `os.rename` and `os.replace`. */
    method Move(from: string, to: string, fails: bool) returns (ok: bool)
      requires Valid() && from in files
      modifies this
      ensures Valid() && ok == !fails
      ensures if fails then files == old(files) && history == old(history)
        else files == Rename(old(files), from, to) && history == old(history) + [files]
    {
      if fails {
        return false;
      }
      files := Rename(files, from, to);
      history := history + [files];
      ok := true;
    }
  }

  /** The backup block: remove an old `.bak`, then rename the target to
      `.bak`; a failure in either call is logged and the save goes on. */
  method BackUp(fs: FileSystem, path: string, f: SaveFaults)
    requires fs.Valid()
    modifies fs
    ensures fs.Valid()
    ensures fs.history == old(fs.history) + BackupTrace(old(fs.files), path, f)
  {
    var bak := BackupPath(path);
    if path in fs.files {
      var removed := true;
      if bak in fs.files {
        removed := fs.Remove(bak, f.removeFails);
      }
      if removed {
        SideFilesDistinct(path, path);
        var moved := fs.Move(path, bak, f.renameFails);
      }
    }
  }

  /** The save stage as the source runs it. */
  method Commit(fs: FileSystem, path: string, text: string, f: SaveFaults) returns (ok: bool)
    requires fs.Valid()
    modifies fs
    ensures fs.Valid() && ok == CommitSucceeds(f)
    ensures fs.history == old(fs.history) + CommitTrace(old(fs.files), path, text, f)[1..]
    ensures fs.files == Last(CommitTrace(old(fs.files), path, text, f))
  {
    ghost var trace := CommitTrace(fs.files, path, text, f);
    LastAppend(fs.history, trace);
    SideFilesDistinct(path, path);
    if f.makedirsFails {
      return false;
    }
    var temp := TempPath(path);
    var written := fs.WriteFile(temp, text, f.temp);
    if !written {
      return false;
    }
    ghost var afterWrite := fs.files;
    ghost var h1 := fs.history;
    BackUp(fs, path, f);
    ghost var backedUp := [old(fs.files), afterWrite] + BackupTrace(afterWrite, path, f);
    assert fs.history == old(fs.history) + backedUp[1..];
    assert fs.files == Last(backedUp);
    assert temp in fs.files;
    ok := fs.Move(temp, path, f.replaceFails);
  }
}
