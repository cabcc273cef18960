/** The file steps of the agent's self-update: SelfUpdate in agent/common/agent.go, after the download. */
module SelfUpdate {
  datatype File = OldBinary | NewBinary | Partial | Other

  type Files = map<string, File>

  /** os.WriteFile truncates before it writes, so it can fail before or after destroying the target. */
  datatype WriteOutcome = NotOpened | CutShort | Written

  /** Whether the operating system lets each step succeed. */
  datatype Plan = Plan(backupOk: bool, write: WriteOutcome, replaceOk: bool, rollbackOk: bool, removeOk: bool)

  datatype Result = Updated | BackupFailed | WriteFailed | ReplaceFailed

  /** An atomic rename; it fails without effect when its source is missing. */
  function Renamed(f: Files, from: string, to: string): Files {
    if from in f then (f - {from})[to := f[from]] else f
  }

  function Backup(current: string): (backup: string)
    ensures backup != current && current <= backup
  {
    BackupDiffers(current);
    current + ".bak"
  }

  lemma BackupDiffers(current: string)
    ensures current + ".bak" != current
  {
    assert |current + ".bak"| == |current| + 4;
  }

  /** A complete binary, old or new, is at the current or at the backup path. */
  predicate Recoverable(f: Files, current: string) {
    || (current in f && (f[current] == OldBinary || f[current] == NewBinary))
    || (Backup(current) in f && (f[Backup(current)] == OldBinary || f[Backup(current)] == NewBinary))
  }

  ghost predicate AllRecoverable(trace: seq<Files>, current: string) {
    forall i :: 0 <= i < |trace| ==> Recoverable(trace[i], current)
  }

  lemma RecoverableAppend(trace: seq<Files>, next: Files, current: string)
    ensures AllRecoverable(trace + [next], current) <==> AllRecoverable(trace, current) && Recoverable(next, current)
  {
    var all := trace + [next];
    assert forall i :: 0 <= i < |trace| ==> all[i] == trace[i];
    assert all[|trace|] == next;
  }

  /** The states WriteNew passes through, from `f` on. */
  function Writing(f: Files, path: string, outcome: WriteOutcome): seq<Files> {
    match outcome
    case NotOpened => [f]
    case CutShort => [f, f[path := Partial]]
    case Written => [f, f[path := Partial], f[path := Partial][path := NewBinary]]
  }

  /** With the old binary moved aside, writing is safe exactly when it does not hit the backup. */
  lemma WriteRecoverable(initial: Files, trace: seq<Files>, current: string, path: string, outcome: WriteOutcome)
    requires current in initial && initial[current] == OldBinary
    requires trace == [initial] + Writing(Renamed(initial, current, Backup(current)), path, outcome)
    ensures AllRecoverable(trace, current) <==> path != Backup(current) || outcome == NotOpened
  {
    assert |Backup(current)| == |current| + 4;
    if path == Backup(current) && outcome != NotOpened {
      assert !Recoverable(trace[2], current);
    }
  }

  class Updater {
    var files: Files
    /** Every state of the file system, oldest first: a crash can leave any of them behind. */
    ghost var trace: seq<Files>

    ghost predicate Valid()
      reads this
    {
      trace != [] && trace[|trace| - 1] == files
    }

    constructor (initial: Files)
      ensures Valid() && files == initial && trace == [initial]
    {
      files, trace := initial, [initial];
    }

    method Rename(from: string, to: string, allowed: bool) returns (ok: bool)
      requires Valid()
      modifies this
      ensures Valid() && ok == (allowed && from in old(files))
      ensures files == if ok then Renamed(old(files), from, to) else old(files)
      ensures trace == if ok then old(trace) + [files] else old(trace)
    {
      ok := allowed && from in files;
      if ok {
        files := (files - {from})[to := files[from]];
        trace := trace + [files];
      }
    }

    method WriteNew(path: string, outcome: WriteOutcome) returns (ok: bool)
      requires Valid()
      modifies this
      ensures Valid() && ok == outcome.Written?
      ensures trace == old(trace) + Writing(old(files), path, outcome)[1..]
    {
      ok := false;
      if outcome != NotOpened {
        files := files[path := Partial];
        trace := trace + [files];
        if outcome == Written {
          files := files[path := NewBinary];
          trace := trace + [files];
          ok := true;
        }
      }
    }

    method Remove(path: string, allowed: bool)
      requires Valid()
      modifies this
      ensures Valid() && files == (if allowed then old(files) - {path} else old(files))
      ensures trace == if allowed then old(trace) + [files] else old(trace)
    {
      if allowed {
        files := files - {path};
        trace := trace + [files];
      }
    }

    /** `currentExe` is the running, complete binary; `newExe` the extracted file's path beside it. */
    method SelfUpdate(currentExe: string, newExe: string, p: Plan) returns (result: Result)
      requires Valid() && currentExe in files && files[currentExe] == OldBinary && |trace| == 1
      modifies this
      ensures Valid()
      ensures result == (if !p.backupOk then BackupFailed
                         else if p.write != Written then WriteFailed
                         else if !p.replaceOk then ReplaceFailed else Updated)
      // No other file is touched.
      ensures forall f :: f != currentExe && f != newExe && f != Backup(currentExe) ==>
                (f in files <==> f in old(files)) && (f in files ==> files[f] == old(files)[f])
      // Success leaves the new binary current, under no other name, and no backup if that can be removed.
      ensures result == Updated && newExe != currentExe ==> newExe !in files
      ensures result == Updated && p.removeOk ==> Backup(currentExe) !in files
      ensures result == Updated ==> currentExe in files && files[currentExe] == NewBinary
      // An error leaves the old one current, provided its rollback rename succeeds.
      ensures result == BackupFailed ==> files == old(files)
      ensures (result == WriteFailed || result == ReplaceFailed) && p.rollbackOk && newExe != Backup(currentExe) ==>
                currentExe in files && files[currentExe] == OldBinary
      // At every step boundary a complete binary can be found, exactly when the new file cannot hit the backup.
      ensures AllRecoverable(trace, currentExe) <==>
                newExe != Backup(currentExe) || !p.backupOk || p.write == NotOpened
    {
      var backupExe := currentExe + ".bak";
      assert |backupExe| == |currentExe| + 4;
      var backedUp := Rename(currentExe, backupExe, p.backupOk);
      if !backedUp {
        return BackupFailed;
      }
      assert trace == [old(files), files];
      assert files == Renamed(old(files), currentExe, backupExe);
      var written := WriteNew(newExe, p.write);
      WriteRecoverable(old(files), trace, currentExe, newExe, p.write);
      ghost var afterWrite := trace;
      if !written {
        var _ := Rename(backupExe, currentExe, p.rollbackOk);
        RecoverableAppend(afterWrite, files, currentExe);
        return WriteFailed;
      }
      var replaced := Rename(newExe, currentExe, p.replaceOk);
      if !replaced {
        var _ := Rename(backupExe, currentExe, p.rollbackOk);
        RecoverableAppend(afterWrite, files, currentExe);
        return ReplaceFailed;
      }
      ghost var afterReplace := trace;
      RecoverableAppend(afterWrite, files, currentExe);
      Remove(backupExe, p.removeOk);
      RecoverableAppend(afterReplace, files, currentExe);
      result := Updated;
    }
  }
}
