/** Replacing a list of build outputs together, however long it is
    (`crates/krit-cli/src/main.rs`). */
module BuildOutputs {
  import opened Utf8
  import opened Wrappers

  const SIDECAR_ATTEMPTS := 100

  datatype Label = Staging | Backup

  /** An output, or a file beside it that carries its name. */
  datatype Path =
    | Destination(owner: Text)
    | Sidecar(owner: Text, sidecarLabel: Label, attempt: nat)

  type Files = map<Path, Text>

  function Lookup(files: Files, p: Path): Option<Text> {
    if p in files then Some(files[p]) else None
  }

  /** `BuildOutputFile`. */
  datatype OutputFile = OutputFile(name: Text, staged: Path, backup: Option<Path>)

  // ----- Where one output stands

  datatype Stage =
    | Prepared   // staged, and moved to its backup if it has one
    | Installed  // renamed into place
    | Withdrawn  // removed again
    | Replaced   // installed, backup removed
    | Original

  /** What the file system holds at a path of `file`, given what it held at
      first. */
  function Expected(first: Files, file: OutputFile, bytes: Text, stage: Stage, p: Path): Option<Text> {
    if p == Destination(file.name) then
      match stage
      case Prepared => if file.backup.Some? then None else Lookup(first, p)
      case Installed => Some(bytes)
      case Withdrawn => None
      case Replaced => Some(bytes)
      case Original => Lookup(first, p)
    else if p == file.staged && stage.Prepared? then Some(bytes)
    else if file.backup == Some(p) && !stage.Replaced? && !stage.Original? then Lookup(first, Destination(file.name))
    else Lookup(first, p)
  }

  ghost predicate Stands(files: Files, first: Files, file: OutputFile, bytes: Text, stage: Stage) {
    forall p: Path :: p.owner == file.name ==> Lookup(files, p) == Expected(first, file, bytes, stage, p)
  }

  /** Staged and backup paths are fresh sidecars, and only what existed has a
      backup. */
  predicate Sound(first: Files, file: OutputFile) {
    && file.staged.Sidecar? && file.staged.owner == file.name && file.staged.sidecarLabel.Staging?
    && file.staged !in first
    && match file.backup
       case None => true
       case Some(backup) =>
         && backup.Sidecar? && backup.owner == file.name && backup.sidecarLabel.Backup? && backup !in first
         && Destination(file.name) in first
  }

  /** The first content of an output is on disk, in place or as its backup. */
  ghost predicate Kept(files: Files, first: Files, name: Text) {
    Destination(name) in first ==>
      exists p: Path :: p.owner == name && Lookup(files, p) == Lookup(first, Destination(name))
  }

  /** Nothing changed except at paths of `name`. */
  ghost predicate OnlyAt(before: Files, after: Files, name: Text) {
    forall p: Path :: p.owner != name ==> Lookup(after, p) == Lookup(before, p)
  }

  ghost predicate SameAt(before: Files, after: Files, name: Text) {
    forall p: Path :: p.owner == name ==> Lookup(after, p) == Lookup(before, p)
  }

  predicate Distinct(names: seq<Text>) {
    forall i, j :: 0 <= i < j < |names| ==> names[i] != names[j]
  }

  /** Paths of no output in the list are as they were. */
  ghost predicate OthersSame(files: Files, first: Files, names: seq<Text>) {
    forall p: Path :: p.owner !in names ==> Lookup(files, p) == Lookup(first, p)
  }

  lemma StandingIsKept(files: Files, first: Files, file: OutputFile, bytes: Text, stage: Stage)
    requires Sound(first, file) && Stands(files, first, file, bytes, stage)
    requires !stage.Replaced?
    requires !stage.Prepared? && !stage.Original? ==> file.backup.Some? || Destination(file.name) !in first
    ensures Kept(files, first, file.name)
  {
    var dest := Destination(file.name);
    assert dest.owner == file.name;
    match file.backup
    case Some(backup) =>
      assert backup.owner == file.name;
      assert Lookup(files, if stage.Original? then dest else backup) == Lookup(first, dest);
    case None =>
  }

  // ----- Where a list of outputs stands

  function Every(stage: Stage, count: nat): (stages: seq<Stage>)
    ensures |stages| == count && forall j :: 0 <= j < count ==> stages[j] == stage
  {
    seq(count, _ => stage)
  }

  predicate Named(names: seq<Text>, outputs: seq<OutputFile>) {
    |outputs| == |names| && forall j :: 0 <= j < |names| ==> outputs[j].name == names[j]
  }

  /** Each output of the list is sound and at its stage; every other path is
      as it was. */
  ghost predicate Arranged(files: Files, first: Files, names: seq<Text>, outputs: seq<OutputFile>,
                           bytes: seq<Text>, stages: seq<Stage>)
  {
    && Named(names, outputs) && |bytes| == |stages| == |names| && Distinct(names)
    && OthersSame(files, first, names)
    && forall j :: 0 <= j < |names| ==>
         Sound(first, outputs[j]) && Stands(files, first, outputs[j], bytes[j], stages[j])
  }

  /** A step on output `i` moves it to `stage` and leaves the rest. */
  lemma OneMoves(before: Files, after: Files, first: Files, names: seq<Text>, outputs: seq<OutputFile>,
                 bytes: seq<Text>, stages: seq<Stage>, i: nat, moved: OutputFile, stage: Stage)
    requires Arranged(before, first, names, outputs, bytes, stages) && i < |names|
    requires OnlyAt(before, after, names[i]) && moved.name == names[i]
    requires Sound(first, moved) && Stands(after, first, moved, bytes[i], stage)
    ensures Arranged(after, first, names, outputs[i := moved], bytes, stages[i := stage])
  {
    var outputs', stages' := outputs[i := moved], stages[i := stage];
    forall j | 0 <= j < |names|
      ensures Sound(first, outputs'[j]) && Stands(after, first, outputs'[j], bytes[j], stages'[j])
    {
      if j != i {
        assert names[j] != names[i];
        OtherStands(before, after, first, outputs[j], bytes[j], stages[j], names[i]);
      }
    }
  }

  lemma OtherStands(before: Files, after: Files, first: Files, file: OutputFile, bytes: Text, stage: Stage, name: Text)
    requires OnlyAt(before, after, name) && file.name != name && Stands(before, first, file, bytes, stage)
    ensures Stands(after, first, file, bytes, stage)
  {
  }

  /** The first content is on disk, and unless an undo failed the output's
      paths are all as they were. */
  ghost predicate Undone(files: Files, first: Files, name: Text, failed: bool) {
    Kept(files, first, name) && (failed || SameAt(first, files, name))
  }

  ghost predicate AllUndone(files: Files, first: Files, names: seq<Text>, failed: bool) {
    && OthersSame(files, first, names)
    && forall j :: 0 <= j < |names| ==> Undone(files, first, names[j], failed)
  }

  lemma UndoneIsUnchanged(files: Files, first: Files, names: seq<Text>)
    requires AllUndone(files, first, names, false)
    ensures files == first
  {
    forall p: Path ensures Lookup(files, p) == Lookup(first, p) {
      if p.owner in names {
        var j :| 0 <= j < |names| && names[j] == p.owner;
        assert Undone(files, first, names[j], false);
      }
    }
    SameLookups(files, first);
  }

  lemma SameLookups(a: Files, b: Files)
    requires forall p: Path :: Lookup(a, p) == Lookup(b, p)
    ensures a == b
  {
    forall p: Path ensures p in a <==> p in b {
      assert Lookup(a, p) == Lookup(b, p);
    }
    forall p | p in a ensures a[p] == b[p] {
      assert Lookup(a, p) == Lookup(b, p);
    }
  }

  lemma OtherUndone(before: Files, after: Files, first: Files, name: Text, other: Text, failed: bool)
    requires OnlyAt(before, after, other) && name != other && Undone(before, first, name, failed)
    ensures Undone(after, first, name, failed)
  {
    if Destination(name) in first {
      var p: Path :| p.owner == name && Lookup(before, p) == Lookup(first, Destination(name));
      assert Lookup(after, p) == Lookup(first, Destination(name));
    }
  }

  /** The list after success: every output replaced, no sidecar left. */
  function Replacement(first: Files, names: seq<Text>, bytes: seq<Text>): Files
    requires |names| == |bytes|
  {
    if names == [] then first
    else Replacement(first, names[..|names| - 1], bytes[..|names| - 1])
         [Destination(names[|names| - 1]) := bytes[|names| - 1]]
  }

  lemma {:induction false} ReplacementAt(first: Files, names: seq<Text>, bytes: seq<Text>, p: Path)
    requires |names| == |bytes| && Distinct(names)
    ensures var after := Lookup(Replacement(first, names, bytes), p);
            && (p.Sidecar? || p.owner !in names ==> after == Lookup(first, p))
            && (forall j :: 0 <= j < |names| && p == Destination(names[j]) ==> after == Some(bytes[j]))
  {
    if names != [] {
      ReplacementAt(first, names[..|names| - 1], bytes[..|names| - 1], p);
    }
  }

  lemma AllReplaced(files: Files, first: Files, names: seq<Text>, outputs: seq<OutputFile>,
                    bytes: seq<Text>, stages: seq<Stage>)
    requires Arranged(files, first, names, outputs, bytes, stages)
    requires forall j :: 0 <= j < |names| ==> stages[j].Replaced?
    ensures files == Replacement(first, names, bytes)
  {
    forall p: Path ensures Lookup(files, p) == Lookup(Replacement(first, names, bytes), p) {
      ReplacementAt(first, names, bytes, p);
      if p.owner in names {
        var j :| 0 <= j < |names| && names[j] == p.owner;
        assert Stands(files, first, outputs[j], bytes[j], Replaced);
      }
    }
    SameLookups(files, Replacement(first, names, bytes));
  }

  // ----- The file system

  /** What the environment does to one call: a write that fails may leave any
      partial content behind. */
  datatype Fault = Fine | Faulty(partial: Text)

  /** None of the calls numbered from `a` up to `b` meets a fault. */
  ghost predicate AllFine(faults: nat -> Fault, a: nat, b: nat) {
    forall i: nat :: a <= i < b ==> faults(i).Fine?
  }

  /** The calls from `a` on met no fault until the last one before `b`. */
  ghost predicate FailsAt(faults: nat -> Fault, a: nat, b: nat) {
    a < b && AllFine(faults, a, b - 1) && faults(b - 1).Faulty?
  }

  /** Every sidecar name of an output is taken. */
  predicate Taken(files: Files, name: Text, sidecarLabel: Label) {
    forall a: nat :: a < SIDECAR_ATTEMPTS ==> Sidecar(name, sidecarLabel, a) in files
  }

  predicate SomeTaken(files: Files, names: seq<Text>) {
    exists j :: 0 <= j < |names| && (Taken(files, names[j], Staging) || Taken(files, names[j], Backup))
  }

  /** Why the forward calls from `a` up to `b` went no further. */
  ghost predicate Refused(faults: nat -> Fault, first: Files, names: seq<Text>, a: nat, b: nat) {
    FailsAt(faults, a, b) || (AllFine(faults, a, b) && SomeTaken(first, names))
  }

  /** How many of the outputs exist. */
  function Existing(first: Files, names: seq<Text>, count: nat): nat
    requires count <= |names|
  {
    if count == 0 then 0
    else Existing(first, names, count - 1) + (if Destination(names[count - 1]) in first then 1 else 0)
  }

  class Disk {
    const faults: nat -> Fault
    /** The number of the next call. */
    var calls: nat
    var files: Files

    constructor (faults: nat -> Fault, files: Files)
      ensures this.faults == faults && this.files == files && calls == 0
    {
      this.faults, this.files, calls := faults, files, 0;
    }

    method NextFault() returns (fault: Fault)
      modifies this`calls
      ensures fault == faults(old(calls)) && calls == old(calls) + 1
    {
      fault := faults(calls);
      calls := calls + 1;
    }

    /** `remove_file`. */
    method Remove(p: Path) returns (ok: bool)
      modifies this
      ensures calls == old(calls) + 1 && (ok <==> faults(old(calls)).Fine? && p in old(files))
      ensures files == if ok then old(files) - {p} else old(files)
    {
      var fault := NextFault();
      ok := fault.Fine? && p in files;
      if ok {
        files := files - {p};
      }
    }

    /** `rename`, which replaces what is at `to`. */
    method Rename(from: Path, to: Path) returns (ok: bool)
      requires from != to
      modifies this
      ensures calls == old(calls) + 1 && (ok <==> faults(old(calls)).Fine? && from in old(files))
      ensures files == if ok then (old(files) - {from})[to := old(files)[from]] else old(files)
    {
      var fault := NextFault();
      ok := fault.Fine? && from in files;
      if ok {
        files := (files - {from})[to := files[from]];
      }
    }

    /** `create_new`. */
    method CreateNew(p: Path) returns (ok: bool)
      modifies this
      ensures calls == old(calls) + 1 && (ok <==> faults(old(calls)).Fine? && p !in old(files))
      ensures files == if ok then old(files)[p := []] else old(files)
    {
      var fault := NextFault();
      ok := fault.Fine? && p !in files;
      if ok {
        files := files[p := []];
      }
    }

    /** `write_all` and `sync_all`. */
    method WriteAll(p: Path, bytes: Text) returns (ok: bool)
      requires p in files
      modifies this
      ensures calls == old(calls) + 1 && (ok <==> faults(old(calls)).Fine?)
      ensures files == old(files)[p := if ok then bytes else faults(old(calls)).partial]
    {
      var fault := NextFault();
      match fault
      case Fine => files := files[p := bytes]; ok := true;
      case Faulty(partial) => files := files[p := partial]; ok := false;
    }

    /** A removal whose failure is ignored. */
    method Discard(p: Path)
      requires p in files
      modifies this
      ensures calls == old(calls) + 1
      ensures files == if faults(old(calls)).Fine? then old(files) - {p} else old(files)
    {
      var ok := Remove(p);
    }

    /** `allocate_build_sidecar`: the first free name. */
    method AllocateSidecar(name: Text, sidecarLabel: Label) returns (sidecar: Option<Path>)
      ensures sidecar.Some? ==>
                && sidecar.value.Sidecar? && sidecar.value.owner == name && sidecar.value.sidecarLabel == sidecarLabel
                && sidecar.value !in files && sidecar.value.attempt < SIDECAR_ATTEMPTS
                && forall a: nat :: a < sidecar.value.attempt ==> Sidecar(name, sidecarLabel, a) in files
      ensures sidecar.None? <==> Taken(files, name, sidecarLabel)
    {
      for attempt := 0 to SIDECAR_ATTEMPTS
        invariant forall a: nat :: a < attempt ==> Sidecar(name, sidecarLabel, a) in files
      {
        if Sidecar(name, sidecarLabel, attempt) !in files {
          return Some(Sidecar(name, sidecarLabel, attempt));
        }
      }
      return None;
    }

    /** `stage_build_output`.  The calls up to `forward` stage the file; any
        later one removes it again. */
    method Stage(name: Text, bytes: Text) returns (staged: Option<Path>, ghost forward: nat)
      modifies this
      ensures old(calls) <= forward <= calls
      ensures OnlyAt(old(files), files, name)
      ensures staged.Some? ==>
                && Sound(old(files), OutputFile(name, staged.value, None))
                && files == old(files)[staged.value := bytes]
                && forward == calls == old(calls) + 2 && AllFine(faults, old(calls), forward)
      ensures staged.None? ==>
                && (FailsAt(faults, old(calls), forward) || (forward == old(calls) && Taken(old(files), name, Staging)))
                && (AllFine(faults, forward, calls) ==> files == old(files))
      ensures Lookup(files, Destination(name)) == Lookup(old(files), Destination(name))
    {
      ghost var before := files;
      staged := AllocateSidecar(name, Staging);
      if staged.None? {
        return None, calls;
      }
      var created := CreateNew(staged.value);
      if !created {
        return None, calls;
      }
      var written := WriteAll(staged.value, bytes);
      forward := calls;
      if !written {
        Discard(staged.value);
        assert faults(forward).Fine? ==> files == before;
        return None, forward;
      }
      assert files == before[staged.value := bytes];
    }

    // ----- One output

    /** Back up one output if it exists. */
    method BackUp(file: OutputFile, ghost first: Files, ghost bytes: Text) returns (backup: Option<OutputFile>)
      requires Sound(first, file) && file.backup.None? && Stands(files, first, file, bytes, Prepared)
      modifies this
      ensures OnlyAt(old(files), files, file.name)
      ensures backup.None? ==>
                && files == old(files)
                && (FailsAt(faults, old(calls), calls) || (calls == old(calls) && Taken(first, file.name, Backup)))
      ensures backup.Some? ==>
                && backup.value.name == file.name && backup.value.staged == file.staged
                && Sound(first, backup.value) && Stands(files, first, backup.value, bytes, Prepared)
                && (Destination(file.name) in first <==> backup.value.backup.Some?)
                && calls == old(calls) + (if Destination(file.name) in first then 1 else 0)
                && AllFine(faults, old(calls), calls)
    {
      var dest := Destination(file.name);
      assert Lookup(files, dest) == Lookup(first, dest);
      if dest !in files {
        return Some(file);
      }
      var sidecar := AllocateSidecar(file.name, Backup);
      if sidecar.None? {
        forall a: nat | a < SIDECAR_ATTEMPTS ensures Sidecar(file.name, Backup, a) in first {
          assert Lookup(files, Sidecar(file.name, Backup, a)) == Lookup(first, Sidecar(file.name, Backup, a));
        }
        return None;
      }
      assert Lookup(files, sidecar.value) == Lookup(first, sidecar.value);
      var moved := Rename(dest, sidecar.value);
      if !moved {
        return None;
      }
      return Some(file.(backup := sidecar));
    }

    /** Rename one staged file into place. */
    method Install(file: OutputFile, ghost first: Files, ghost bytes: Text) returns (ok: bool)
      requires Sound(first, file) && Stands(files, first, file, bytes, Prepared)
      modifies this
      ensures calls == old(calls) + 1 && (ok <==> faults(old(calls)).Fine?)
      ensures OnlyAt(old(files), files, file.name)
      ensures ok ==> Stands(files, first, file, bytes, Installed)
      ensures !ok ==> files == old(files)
    {
      assert Lookup(files, file.staged) == Some(bytes);
      ok := Rename(file.staged, Destination(file.name));
    }

    /** Take an installed file out again. */
    method Withdraw(file: OutputFile, ghost first: Files, ghost bytes: Text)
      requires Sound(first, file) && Stands(files, first, file, bytes, Installed)
      modifies this
      ensures calls == old(calls) + 1 && OnlyAt(old(files), files, file.name)
      ensures Stands(files, first, file, bytes, if faults(old(calls)).Fine? then Withdrawn else Installed)
    {
      assert Lookup(files, Destination(file.name)) == Some(bytes);
      Discard(Destination(file.name));
    }

    /** One turn of `restore_build_outputs`, after undo calls from `forward` on. */
    method RestoreOne(file: OutputFile, ghost first: Files, ghost bytes: Text, ghost stage: Stage, ghost forward: nat)
      requires forward <= calls && Sound(first, file) && Stands(files, first, file, bytes, stage)
      requires Restorable(first, file, stage, !AllFine(faults, forward, calls))
      modifies this
      ensures old(calls) <= calls && OnlyAt(old(files), files, file.name)
      ensures Undone(files, first, file.name, !AllFine(faults, forward, calls))
    {
      var dest := Destination(file.name);
      StandingIsKept(files, first, file, bytes, stage);
      if file.staged in files {
        Discard(file.staged);
      }
      match file.backup
      case Some(backup) =>
        assert Lookup(files, backup) == Lookup(first, dest);
        var ok := Rename(backup, dest);
        if !ok {
          assert Lookup(files, backup) == Lookup(first, dest);
        } else {
          assert Lookup(files, dest) == Lookup(first, dest);
        }
      case None =>
        assert Lookup(files, dest) == Lookup(old(files), dest);
    }

    // ----- All outputs

    /** `restore_build_outputs`. */
    method RestoreAll(names: seq<Text>, outputs: seq<OutputFile>, ghost first: Files, ghost bytes: seq<Text>,
                      ghost stages: seq<Stage>, ghost forward: nat)
      requires forward <= calls && Arranged(files, first, names, outputs, bytes, stages)
      requires forall j :: 0 <= j < |names| ==>
                 Restorable(first, outputs[j], stages[j], !AllFine(faults, forward, calls))
      modifies this
      ensures old(calls) <= calls
      ensures AllUndone(files, first, names, !AllFine(faults, forward, calls))
    {
      for i := 0 to |outputs|
        invariant old(calls) <= calls && OthersSame(files, first, names)
        invariant forall j :: 0 <= j < i ==> Undone(files, first, names[j], !AllFine(faults, forward, calls))
        invariant forall j :: i <= j < |names| ==>
                    && Stands(files, first, outputs[j], bytes[j], stages[j])
                    && Restorable(first, outputs[j], stages[j], !AllFine(faults, forward, calls))
      {
        ghost var before, failed := files, !AllFine(faults, forward, calls);
        RestoreOne(outputs[i], first, bytes[i], stages[i], forward);
        assert failed ==> !AllFine(faults, forward, calls);
        forall j | 0 <= j < |names| && j != i
          ensures j < i ==> Undone(files, first, names[j], !AllFine(faults, forward, calls))
          ensures j > i ==> Stands(files, first, outputs[j], bytes[j], stages[j])
        {
          assert names[j] != names[i];
          if j < i {
            OtherUndone(before, files, first, names[j], names[i], failed);
          } else {
            OtherStands(before, files, first, outputs[j], bytes[j], stages[j], names[i]);
          }
        }
      }
    }

    /** Stage every output; on a failure, discard what was staged. */
    method StageAll(names: seq<Text>, bytes: seq<Text>) returns (outputs: Option<seq<OutputFile>>, ghost forward: nat)
      requires |bytes| == |names| && Distinct(names)
      modifies this
      ensures old(calls) <= forward <= calls
      ensures outputs.Some? ==>
                && Arranged(files, old(files), names, outputs.value, bytes, Every(Prepared, |names|))
                && NoBackups(outputs.value, 0)
                && forward == calls == old(calls) + 2 * |names| && AllFine(faults, old(calls), calls)
      ensures outputs.None? ==>
                && Refused(faults, old(files), names, old(calls), forward)
                && AllUndone(files, old(files), names, !AllFine(faults, forward, calls))
    {
      ghost var first := files;
      var staged: seq<OutputFile> := [];
      for i := 0 to |names|
        invariant |staged| == i && calls == old(calls) + 2 * i && AllFine(faults, old(calls), calls)
        invariant StagedUpTo(files, first, names, staged, bytes)
      {
        ghost var before, begun := files, calls;
        var one;
        one, forward := Stage(names[i], bytes[i]);
        if one.None? {
          StageRefused(faults, before, first, names, staged, bytes, old(calls), begun, forward);
          StageFailed(before, files, first, names, staged, bytes, !AllFine(faults, forward, calls));
          DiscardStaged(names, staged, first, bytes, forward);
          return None, forward;
        }
        StagedOneMore(before, files, first, names, staged, bytes, one.value);
        staged := staged + [OutputFile(names[i], one.value, None)];
      }
      return Some(staged), calls;
    }

    /** Undo of the staging loop. */
    method DiscardStaged(names: seq<Text>, staged: seq<OutputFile>, ghost first: Files, ghost bytes: seq<Text>,
                         ghost forward: nat)
      requires forward <= calls && StageHalted(files, first, names, staged, bytes, !AllFine(faults, forward, calls))
      modifies this
      ensures old(calls) <= calls
      ensures AllUndone(files, first, names, !AllFine(faults, forward, calls))
    {
      for i := 0 to |staged|
        invariant old(calls) <= calls && OthersSame(files, first, names)
        invariant forall j :: 0 <= j < i || |staged| <= j < |names| ==>
                    Undone(files, first, names[j], !AllFine(faults, forward, calls))
        invariant forall j :: i <= j < |staged| ==> Stands(files, first, staged[j], bytes[j], Prepared)
      {
        ghost var before, failed := files, !AllFine(faults, forward, calls);
        DiscardOne(names[i], staged[i], first, bytes[i], forward);
        assert failed ==> !AllFine(faults, forward, calls);
        forall j | 0 <= j < |names| && j != i
          ensures j < i || |staged| <= j ==> Undone(files, first, names[j], !AllFine(faults, forward, calls))
          ensures i < j < |staged| ==> Stands(files, first, staged[j], bytes[j], Prepared)
        {
          assert names[j] != names[i];
          if i < j < |staged| {
            OtherStands(before, files, first, staged[j], bytes[j], Prepared, names[i]);
          } else {
            OtherUndone(before, files, first, names[j], names[i], failed);
          }
        }
      }
    }

    /** Remove one staged file that has no backup yet. */
    method DiscardOne(name: Text, file: OutputFile, ghost first: Files, ghost bytes: Text, ghost forward: nat)
      requires forward <= calls && file.name == name && file.backup.None? && Sound(first, file)
      requires Stands(files, first, file, bytes, Prepared)
      modifies this
      ensures calls == old(calls) + 1 && OnlyAt(old(files), files, name)
      ensures Undone(files, first, name, !AllFine(faults, forward, calls))
    {
      var dest := Destination(name);
      assert Lookup(files, file.staged) == Some(bytes);
      Discard(file.staged);
      assert Lookup(files, dest) == Lookup(first, dest);
      assert AllFine(faults, forward, calls) ==> faults(old(calls)).Fine?;
    }

    /** Restore when nothing is installed yet. */
    method RestorePrepared(names: seq<Text>, outputs: seq<OutputFile>, ghost first: Files, ghost bytes: seq<Text>)
      requires Arranged(files, first, names, outputs, bytes, Every(Prepared, |names|))
      modifies this
      ensures old(calls) <= calls
      ensures AllUndone(files, first, names, !AllFine(faults, old(calls), calls))
    {
      RestoreAll(names, outputs, first, bytes, Every(Prepared, |names|), calls);
    }

    /** Back up every output that exists; on a failure, restore. */
    method BackUpAll(names: seq<Text>, staged: seq<OutputFile>, ghost first: Files, ghost bytes: seq<Text>)
      returns (outputs: Option<seq<OutputFile>>, ghost forward: nat)
      requires Arranged(files, first, names, staged, bytes, Every(Prepared, |names|))
      requires NoBackups(staged, 0)
      modifies this
      ensures old(calls) <= forward <= calls
      ensures outputs.Some? ==>
                && Arranged(files, first, names, outputs.value, bytes, Every(Prepared, |names|))
                && BackedUp(first, outputs.value, |names|)
                && forward == calls == old(calls) + Existing(first, names, |names|)
                && AllFine(faults, old(calls), calls)
      ensures outputs.None? ==>
                && Refused(faults, first, names, old(calls), forward)
                && AllUndone(files, first, names, !AllFine(faults, forward, calls))
    {
      var ok, current := BackUpEach(names, staged, first, bytes);
      forward := calls;
      if !ok {
        RestorePrepared(names, current, first, bytes);
        return None, forward;
      }
      return Some(current), forward;
    }

    /** The loop alone. */
    method BackUpEach(names: seq<Text>, staged: seq<OutputFile>, ghost first: Files, ghost bytes: seq<Text>)
      returns (ok: bool, current: seq<OutputFile>)
      requires Arranged(files, first, names, staged, bytes, Every(Prepared, |names|)) && NoBackups(staged, 0)
      modifies this
      ensures old(calls) <= calls && Arranged(files, first, names, current, bytes, Every(Prepared, |names|))
      ensures ok ==>
                && BackedUp(first, current, |names|)
                && calls == old(calls) + Existing(first, names, |names|) && AllFine(faults, old(calls), calls)
      ensures !ok ==> Refused(faults, first, names, old(calls), calls)
    {
      current := staged;
      for i := 0 to |names|
        invariant BackingUp(files, first, names, current, bytes, i)
        invariant calls == old(calls) + Existing(first, names, i) && AllFine(faults, old(calls), calls)
      {
        ghost var begun := calls;
        var next := BackUpNext(names, current, i, first, bytes);
        if next.None? {
          BackUpRefused(faults, first, names, i, old(calls), begun, calls);
          return false, current;
        }
        FineJoins(faults, old(calls), begun, calls);
        current := next.value;
      }
      return true, current;
    }

    /** One turn of that loop. */
    method BackUpNext(names: seq<Text>, current: seq<OutputFile>, i: nat, ghost first: Files, ghost bytes: seq<Text>)
      returns (next: Option<seq<OutputFile>>)
      requires i < |names| && BackingUp(files, first, names, current, bytes, i)
      modifies this
      ensures old(calls) <= calls
      ensures next.None? ==>
                && BackingUp(files, first, names, current, bytes, i)
                && (FailsAt(faults, old(calls), calls) || (calls == old(calls) && Taken(first, names[i], Backup)))
      ensures next.Some? ==>
                && BackingUp(files, first, names, next.value, bytes, i + 1)
                && calls == old(calls) + (if Destination(names[i]) in first then 1 else 0)
                && AllFine(faults, old(calls), calls)
    {
      ghost var before, stages := files, Every(Prepared, |names|);
      var one := BackUp(current[i], first, bytes[i]);
      if one.None? {
        return None;
      }
      OneMoves(before, files, first, names, current, bytes, stages, i, one.value, Prepared);
      OneMoreBackup(first, current, i, one.value);
      assert stages[i := Prepared] == stages;
      return Some(current[i := one.value]);
    }

    /** Rename every staged file into place; on a failure, withdraw and restore. */
    method InstallAll(names: seq<Text>, outputs: seq<OutputFile>, ghost first: Files, ghost bytes: seq<Text>)
      returns (ok: bool, ghost forward: nat)
      requires Arranged(files, first, names, outputs, bytes, Every(Prepared, |names|))
      requires BackedUp(first, outputs, |names|)
      modifies this
      ensures old(calls) <= forward <= calls
      ensures ok ==>
                && Arranged(files, first, names, outputs, bytes, Every(Installed, |names|))
                && forward == calls == old(calls) + |names| && AllFine(faults, old(calls), calls)
      ensures !ok ==>
                && FailsAt(faults, old(calls), forward)
                && AllUndone(files, first, names, !AllFine(faults, forward, calls))
    {
      ghost var stages := Every(Prepared, |names|);
      for i := 0 to |names|
        invariant Arranged(files, first, names, outputs, bytes, stages)
        invariant calls == old(calls) + i && AllFine(faults, old(calls), calls)
        invariant forall j :: 0 <= j < |names| ==> stages[j] == if j < i then Installed else Prepared
      {
        ghost var before := files;
        var installed := Install(outputs[i], first, bytes[i]);
        if !installed {
          forward := calls;
          WithdrawAll(names, outputs, i, first, bytes, stages);
          return false, forward;
        }
        OneMoves(before, files, first, names, outputs, bytes, stages, i, outputs[i], Installed);
        assert outputs[i := outputs[i]] == outputs;
        stages := stages[i := Installed];
      }
      assert stages == Every(Installed, |names|);
      return true, calls;
    }

    /** The undo of `InstallAll`. */
    method WithdrawAll(names: seq<Text>, outputs: seq<OutputFile>, count: nat, ghost first: Files,
                       ghost bytes: seq<Text>, ghost stages: seq<Stage>)
      requires Arranged(files, first, names, outputs, bytes, stages)
      requires BackedUp(first, outputs, |names|) && count <= |names|
      requires forall j :: 0 <= j < |names| ==> stages[j] == if j < count then Installed else Prepared
      modifies this
      ensures old(calls) <= calls
      ensures AllUndone(files, first, names, !AllFine(faults, old(calls), calls))
    {
      ghost var current := stages;
      for i := 0 to count
        invariant old(calls) <= calls
        invariant Arranged(files, first, names, outputs, bytes, current)
        invariant forall j :: i <= j < |names| ==> current[j] == stages[j]
        invariant forall j :: 0 <= j < i ==>
                    current[j].Withdrawn? || (current[j].Installed? && !AllFine(faults, old(calls), calls))
      {
        ghost var before, index := files, calls;
        Withdraw(outputs[i], first, bytes[i]);
        ghost var stage := if faults(index).Fine? then Withdrawn else Installed;
        OneMoves(before, files, first, names, outputs, bytes, current, i, outputs[i], stage);
        assert outputs[i := outputs[i]] == outputs;
        current := current[i := stage];
      }
      RestoreAll(names, outputs, first, bytes, current, old(calls));
    }

    /** Remove the backups of a completed replacement. */
    method DropBackups(names: seq<Text>, outputs: seq<OutputFile>, ghost first: Files, ghost bytes: seq<Text>)
      requires Arranged(files, first, names, outputs, bytes, Every(Installed, |names|))
      modifies this
      ensures old(calls) <= calls && OthersSame(files, first, names)
      ensures forall j :: 0 <= j < |names| ==> Lookup(files, Destination(names[j])) == Some(bytes[j])
      ensures AllFine(faults, old(calls), calls) ==> files == Replacement(first, names, bytes)
    {
      ghost var stages := Every(Installed, |names|);
      for i := 0 to |names|
        invariant old(calls) <= calls
        invariant Arranged(files, first, names, outputs, bytes, stages)
        invariant forall j :: i <= j < |names| ==> stages[j].Installed?
        invariant forall j :: 0 <= j < |names| ==> stages[j].Installed? || stages[j].Replaced?
        invariant AllFine(faults, old(calls), calls) ==> forall j :: 0 <= j < i ==> stages[j].Replaced?
      {
        ghost var before, index := files, calls;
        DropBackup(outputs[i], first, bytes[i]);
        ghost var stage := if calls == index || faults(index).Fine? then Replaced else Installed;
        OneMoves(before, files, first, names, outputs, bytes, stages, i, outputs[i], stage);
        assert outputs[i := outputs[i]] == outputs;
        stages := stages[i := stage];
      }
      forall j | 0 <= j < |names| ensures Lookup(files, Destination(names[j])) == Some(bytes[j]) {
        assert Stands(files, first, outputs[j], bytes[j], stages[j]);
      }
      if AllFine(faults, old(calls), calls) {
        AllReplaced(files, first, names, outputs, bytes, stages);
      }
    }

    method DropBackup(file: OutputFile, ghost first: Files, ghost bytes: Text)
      requires Sound(first, file) && Stands(files, first, file, bytes, Installed)
      modifies this
      ensures calls == old(calls) + (if file.backup.Some? then 1 else 0) && OnlyAt(old(files), files, file.name)
      ensures Stands(files, first, file, bytes,
                     if calls == old(calls) || faults(old(calls)).Fine? then Replaced else Installed)
    {
      if file.backup.Some? {
        assert Lookup(files, file.backup.value) == Lookup(first, Destination(file.name));
        Discard(file.backup.value);
      }
    }

    /** `replace_build_outputs`: all or nothing.  The calls up to `forward` stage,
        back up and install; the later ones undo or clean up.  An error means
        that the last forward call met a fault or no sidecar name was free, and
        success that every forward call went through.  If the later calls meet
        no fault, an error leaves the disk exactly as it was and success leaves
        exactly the new outputs.  Even if they do, an error never loses the first
        content of an output, and success has every new output in place. */
    method ReplaceBuildOutputs(names: seq<Text>, bytes: seq<Text>) returns (ok: bool, ghost forward: nat)
      requires |bytes| == |names| && Distinct(names)
      modifies this
      ensures old(calls) <= forward <= calls && OthersSame(files, old(files), names)
      ensures ok ==>
                && AllFine(faults, old(calls), forward)
                && forward == old(calls) + 3 * |names| + Existing(old(files), names, |names|)
      ensures !ok ==> Refused(faults, old(files), names, old(calls), forward)
      ensures AllFine(faults, forward, calls) ==>
                files == if ok then Replacement(old(files), names, bytes) else old(files)
      ensures !ok ==> forall j :: 0 <= j < |names| ==> Kept(files, old(files), names[j])
      ensures ok ==> forall j :: 0 <= j < |names| ==> Lookup(files, Destination(names[j])) == Some(bytes[j])
      ensures AllFine(faults, old(calls), calls) && !SomeTaken(old(files), names) ==> ok
    {
      ghost var first := files;
      var staged;
      staged, forward := StageAll(names, bytes);
      if staged.None? {
        AllOrNothing(files, first, names, !AllFine(faults, forward, calls));
        return false, forward;
      }
      ghost var begun := calls;
      var outputs;
      outputs, forward := BackUpAll(names, staged.value, first, bytes);
      if outputs.None? {
        RefusedLater(faults, first, names, old(calls), begun, forward);
        AllOrNothing(files, first, names, !AllFine(faults, forward, calls));
        return false, forward;
      }
      begun := calls;
      ok, forward := InstallAll(names, outputs.value, first, bytes);
      if !ok {
        RefusedLater(faults, first, names, old(calls), begun, forward);
        AllOrNothing(files, first, names, !AllFine(faults, forward, calls));
        return;
      }
      DropBackups(names, outputs.value, first, bytes);
    }
  }

  lemma FineJoins(faults: nat -> Fault, a: nat, m: nat, b: nat)
    requires a <= m <= b && AllFine(faults, a, m) && AllFine(faults, m, b)
    ensures AllFine(faults, a, b)
  {
  }

  /** Everything is prepared, and the first `count` outputs are backed up. */
  ghost predicate BackingUp(files: Files, first: Files, names: seq<Text>, outputs: seq<OutputFile>, bytes: seq<Text>,
                            count: nat) {
    && Arranged(files, first, names, outputs, bytes, Every(Prepared, |names|)) && count <= |names|
    && BackedUp(first, outputs, count) && NoBackups(outputs, count)
  }

  predicate NoBackups(outputs: seq<OutputFile>, from: nat) {
    forall j :: from <= j < |outputs| ==> outputs[j].backup.None?
  }

  lemma OneMoreBackup(first: Files, outputs: seq<OutputFile>, i: nat, one: OutputFile)
    requires i < |outputs| && BackedUp(first, outputs, i) && NoBackups(outputs, i) && one.name == outputs[i].name
    requires Destination(one.name) in first ==> one.backup.Some?
    ensures BackedUp(first, outputs[i := one], i + 1) && NoBackups(outputs[i := one], i + 1)
  {
  }

  // ----- Refusals

  lemma RefusedLater(faults: nat -> Fault, first: Files, names: seq<Text>, a: nat, m: nat, b: nat)
    requires a <= m <= b && AllFine(faults, a, m) && Refused(faults, first, names, m, b)
    ensures Refused(faults, first, names, a, b)
  {
  }

  lemma StageRefused(faults: nat -> Fault, files: Files, first: Files, names: seq<Text>, staged: seq<OutputFile>,
                     bytes: seq<Text>, a: nat, m: nat, b: nat)
    requires StagedUpTo(files, first, names, staged, bytes) && |staged| < |names|
    requires a <= m <= b && AllFine(faults, a, m)
    requires FailsAt(faults, m, b) || (m == b && Taken(files, names[|staged|], Staging))
    ensures Refused(faults, first, names, a, b)
  {
    var name := names[|staged|];
    if m == b {
      assert SameAt(first, files, name);
      forall i: nat | i < SIDECAR_ATTEMPTS ensures Sidecar(name, Staging, i) in first {
        assert Lookup(files, Sidecar(name, Staging, i)) == Lookup(first, Sidecar(name, Staging, i));
      }
      assert Taken(first, names[|staged|], Staging);
    }
  }

  lemma BackUpRefused(faults: nat -> Fault, first: Files, names: seq<Text>, i: nat, a: nat, m: nat, b: nat)
    requires i < |names| && a <= m <= b && AllFine(faults, a, m)
    requires FailsAt(faults, m, b) || (m == b && Taken(first, names[i], Backup))
    ensures Refused(faults, first, names, a, b)
  {
  }

  lemma AllOrNothing(files: Files, first: Files, names: seq<Text>, failed: bool)
    requires AllUndone(files, first, names, failed)
    ensures failed || files == first
    ensures forall j :: 0 <= j < |names| ==> Kept(files, first, names[j])
  {
    if !failed {
      UndoneIsUnchanged(files, first, names);
    }
    forall j | 0 <= j < |names| ensures Kept(files, first, names[j]) {
      assert Undone(files, first, names[j], failed);
    }
  }

  /** Each of the first `count` outputs that existed has a backup. */
  predicate BackedUp(first: Files, outputs: seq<OutputFile>, count: nat)
    requires count <= |outputs|
  {
    forall j :: 0 <= j < count && Destination(outputs[j].name) in first ==> outputs[j].backup.Some?
  }

  // ----- The staging loop

  ghost predicate StagedUpTo(files: Files, first: Files, names: seq<Text>, staged: seq<OutputFile>, bytes: seq<Text>) {
    && |staged| <= |names| == |bytes| && Distinct(names)
    && OthersSame(files, first, names)
    && (forall j :: 0 <= j < |staged| ==>
          && staged[j].name == names[j] && staged[j].backup.None? && Sound(first, staged[j])
          && Stands(files, first, staged[j], bytes[j], Prepared))
    && (forall j :: |staged| <= j < |names| ==> SameAt(first, files, names[j]))
  }

  /** The same, with one failed attempt behind it. */
  ghost predicate StageHalted(files: Files, first: Files, names: seq<Text>, staged: seq<OutputFile>, bytes: seq<Text>,
                              failed: bool) {
    && |staged| <= |names| == |bytes| && Distinct(names)
    && OthersSame(files, first, names)
    && (forall j :: 0 <= j < |staged| ==>
          && staged[j].name == names[j] && staged[j].backup.None? && Sound(first, staged[j])
          && Stands(files, first, staged[j], bytes[j], Prepared))
    && (forall j :: |staged| <= j < |names| ==> Undone(files, first, names[j], failed))
  }

  lemma StagedOneMore(before: Files, after: Files, first: Files, names: seq<Text>, staged: seq<OutputFile>,
                      bytes: seq<Text>, path: Path)
    requires StagedUpTo(before, first, names, staged, bytes) && |staged| < |names|
    requires Sound(before, OutputFile(names[|staged|], path, None)) && after == before[path := bytes[|staged|]]
    ensures StagedUpTo(after, first, names, staged + [OutputFile(names[|staged|], path, None)], bytes)
  {
    var i := |staged|;
    var one := OutputFile(names[i], path, None);
    assert SameAt(first, before, names[i]);
    assert Lookup(before, path) == Lookup(first, path);
    assert Stands(after, first, one, bytes[i], Prepared);
    assert OnlyAt(before, after, names[i]);
    forall j | 0 <= j < i ensures Stands(after, first, staged[j], bytes[j], Prepared) {
      assert names[j] != names[i];
      OtherStands(before, after, first, staged[j], bytes[j], Prepared, names[i]);
    }
    forall j | i < j < |names| ensures SameAt(first, after, names[j]) {
      assert names[i] != names[j];
      assert SameAt(first, before, names[j]);
    }
  }

  lemma StageFailed(before: Files, after: Files, first: Files, names: seq<Text>, staged: seq<OutputFile>,
                    bytes: seq<Text>, failed: bool)
    requires StagedUpTo(before, first, names, staged, bytes) && |staged| < |names|
    requires OnlyAt(before, after, names[|staged|]) && (failed || after == before)
    requires Lookup(after, Destination(names[|staged|])) == Lookup(before, Destination(names[|staged|]))
    ensures StageHalted(after, first, names, staged, bytes, failed)
  {
    var i := |staged|;
    assert SameAt(first, before, names[i]);
    forall j | 0 <= j < i ensures Stands(after, first, staged[j], bytes[j], Prepared) {
      assert names[j] != names[i];
      OtherStands(before, after, first, staged[j], bytes[j], Prepared, names[i]);
    }
    forall j | i <= j < |names| ensures Undone(after, first, names[j], failed) {
      assert SameAt(first, before, names[j]);
      assert i < j ==> names[i] != names[j];
      assert Lookup(after, Destination(names[j])) == Lookup(first, Destination(names[j]));
    }
  }

  /** What the restoring loop may meet: an output still prepared, or withdrawn,
      or one whose withdrawal failed. */
  predicate Restorable(first: Files, file: OutputFile, stage: Stage, failed: bool) {
    match stage
    case Prepared => true
    case Withdrawn => file.backup.Some? || Destination(file.name) !in first
    case Installed => failed && (file.backup.Some? || Destination(file.name) !in first)
    case _ => false
  }
}
