/**
 The size budget of a dump report: files are accepted by raw size while that fits, and otherwise by
 the size of the compressed archive of everything collected so far.
 */
module DreportBudget {
  import opened Wrappers

  type Files = map<string, nat>

  /** The size of the compressed archive of a set of files. */
  type Archive = Files -> nat

  /** A report in progress; limit is None for an unlimited dump size. */
  datatype Report = Report(files: Files, curDumpSize: nat, limit: Option<nat>)

  datatype Verdict = Accepted | ResourceUnavailable

  datatype Operation =
    | CheckSize(source: string)
    | CommandOutput(name: string, appended: nat, ok: bool)
    | CopyFile(path: string, baseName: string, copied: Option<nat>, ok: bool)

  /** Growing a file, or adding one, never makes the archive larger by more than that file's size. */
  ghost predicate Compresses(archive: Archive) {
    && (forall files: Files, f: string :: archive(files - {f}) <= archive(files))
    && (forall files: Files, f: string, size: nat {:trigger files[f := size]} :: archive(files[f := size]) <= archive(files - {f}) + size)
  }

  // ----- what the operations do --------------------------------------------------------------

  /** check_size on a regular file that is in the report directory. */
  function AfterCheck(r: Report, source: string, archive: Archive): (Report, Verdict)
    requires source in r.files
  {
    if r.limit.None? then (r, Accepted)
    else
      var size := r.files[source];
      if size + r.curDumpSize <= r.limit.value then (r.(curDumpSize := size + r.curDumpSize), Accepted)
      else
        var packed := archive(r.files);
        if packed > r.limit.value then (r.(files := r.files - {source}), ResourceUnavailable)
        else (r.(curDumpSize := packed + r.curDumpSize), Accepted)
  }

  /** add_cmd_output appends; a failing command has its file removed, earlier output included. */
  function AfterCommand(r: Report, name: string, appended: nat, ok: bool, archive: Archive): Report {
    var size := (if name in r.files then r.files[name] else 0) + appended;
    var r1 := r.(files := r.files[name := size]);
    if !ok then r1.(files := r1.files - {name}) else AfterCheck(r1, name, archive).0
  }

  /**
   add_copy_file writes under the base name, but after a failing copy it removes the path as it was
   given. copied is the size left under the base name, if the copy got that far.
   */
  function AfterCopy(r: Report, path: string, baseName: string, copied: Option<nat>, ok: bool, archive: Archive): Report {
    var r1 := if copied.Some? then r.(files := r.files[baseName := copied.value]) else r;
    if !ok then r1.(files := r1.files - {path})
    else if baseName !in r1.files then r1
    else AfterCheck(r1, baseName, archive).0
  }

  function Step(r: Report, op: Operation, archive: Archive): Report {
    match op
    case CheckSize(source) => if source in r.files then AfterCheck(r, source, archive).0 else r
    case CommandOutput(name, appended, ok) => AfterCommand(r, name, appended, ok, archive)
    case CopyFile(path, baseName, copied, ok) => AfterCopy(r, path, baseName, copied, ok, archive)
  }

  function Run(r: Report, ops: seq<Operation>, archive: Archive): Report
    decreases |ops|
  {
    if ops == [] then r else Run(Step(r, ops[0], archive), ops[1..], archive)
  }

  // ----- the budget --------------------------------------------------------------------------

  /** The kept files compress to at most the running size and the limit, over what an empty archive takes. */
  ghost predicate InBudget(r: Report, archive: Archive) {
    r.limit.Some? ==>
      && archive(r.files) <= archive(map[]) + r.curDumpSize
      && archive(r.files) <= archive(map[]) + r.limit.value
  }

  /**
   One check keeps the budget however large the checked file has just become: before it, only the
   report without that file need be in budget.
   */
  lemma {:induction false} CheckKeepsBudget(r: Report, source: string, archive: Archive)
    requires Compresses(archive) && source in r.files
    requires InBudget(r.(files := r.files - {source}), archive)
    ensures InBudget(AfterCheck(r, source, archive).0, archive)
  {
    assert r.files[source := r.files[source]] == r.files;
    assert archive(r.files) <= archive(r.files - {source}) + r.files[source];
  }

  /**
   A checked file is refused, and then removed, exactly if it fits neither raw nor with the whole archive;
   an accepted one stays, and adds to the running size what it was accepted by. Nothing is checked without
   a limit.
   */
  lemma {:induction false} CheckVerdict(r: Report, source: string, archive: Archive)
    requires source in r.files
    ensures var (r', v) := AfterCheck(r, source, archive);
            var fitsRaw := r.limit.Some? ==> r.files[source] + r.curDumpSize <= r.limit.value;
            var fitsPacked := r.limit.Some? ==> archive(r.files) <= r.limit.value;
            && (v == ResourceUnavailable <==> !fitsRaw && !fitsPacked)
            && (v == ResourceUnavailable <==> source !in r'.files)
            && (forall f :: f in r.files && f != source ==> f in r'.files)
            && (forall f :: f in r'.files ==> f in r.files && r'.files[f] == r.files[f])
            && r'.limit == r.limit
            && r'.curDumpSize == r.curDumpSize + (if r.limit.None? || v == ResourceUnavailable then 0
                                                  else if fitsRaw then r.files[source] else archive(r.files))
  {
  }

  /** A failing command leaves nothing of its file; a successful one's output is appended and then checked. */
  lemma {:induction false} CommandEffect(r: Report, name: string, appended: nat, ok: bool, archive: Archive)
    ensures var r' := AfterCommand(r, name, appended, ok, archive);
            && (!ok ==> name !in r'.files && r'.curDumpSize == r.curDumpSize)
            && (name in r'.files ==> r'.files[name] == appended + if name in r.files then r.files[name] else 0)
            && (ok && r.limit.None? ==> name in r'.files)
            && forall f :: f != name ==> (f in r'.files <==> f in r.files) && (f in r.files ==> r'.files[f] == r.files[f])
  {
  }

  lemma {:induction false} RemovalKeepsBudget(r: Report, f: string, archive: Archive)
    requires Compresses(archive) && InBudget(r, archive)
    ensures InBudget(r.(files := r.files - {f}), archive)
  {
    assert archive(r.files - {f}) <= archive(r.files);
  }

  /** A failing copy either leaves nothing or was named by its base name, so that it is removed. */
  predicate CleansUp(op: Operation) {
    op.CopyFile? && !op.ok ==> op.copied.None? || op.copied.value == 0 || op.path == op.baseName
  }

  lemma {:induction false} StepKeepsBudget(r: Report, op: Operation, archive: Archive)
    requires Compresses(archive) && InBudget(r, archive) && CleansUp(op)
    ensures InBudget(Step(r, op, archive), archive)
  {
    match op {
      case CheckSize(source) =>
        RemovalKeepsBudget(r, source, archive);
        if source in r.files {
          CheckKeepsBudget(r, source, archive);
        }
      case CommandOutput(name, appended, ok) =>
        RemovalKeepsBudget(r, name, archive);
        var size := (if name in r.files then r.files[name] else 0) + appended;
        assert r.files[name := size] - {name} == r.files - {name};
        if ok {
          CheckKeepsBudget(r.(files := r.files[name := size]), name, archive);
        }
      case CopyFile(path, baseName, copied, ok) =>
        RemovalKeepsBudget(r, path, archive);
        RemovalKeepsBudget(r, baseName, archive);
        if copied.Some? {
          if copied.value == 0 {
            assert archive(r.files[baseName := 0]) <= archive(r.files - {baseName}) + 0;
            RemovalKeepsBudget(r.(files := r.files[baseName := 0]), path, archive);
          }
          assert r.files[baseName := copied.value] - {baseName} == r.files - {baseName};
          if ok {
            CheckKeepsBudget(r.(files := r.files[baseName := copied.value]), baseName, archive);
          }
        } else if ok && baseName in r.files {
          CheckKeepsBudget(r, baseName, archive);
        }
    }
  }

  ghost predicate AllCleanUp(ops: seq<Operation>) {
    forall i :: 0 <= i < |ops| ==> CleansUp(ops[i])
  }

  /** The budget holds after every sequence of operations on a new report. */
  lemma {:induction false} RunsKeepBudget(r: Report, ops: seq<Operation>, archive: Archive)
    requires Compresses(archive) && InBudget(r, archive) && AllCleanUp(ops)
    ensures InBudget(Run(r, ops, archive), archive)
    decreases |ops|
  {
    if ops == [] {
    } else {
      StepKeepsBudget(r, ops[0], archive);
      RunsKeepBudget(Step(r, ops[0], archive), ops[1..], archive);
    }
  }

  lemma {:induction false} StepKeepsLimit(r: Report, op: Operation, archive: Archive)
    ensures Step(r, op, archive).limit == r.limit
  {
  }

  lemma {:induction false} RunKeepsLimit(r: Report, ops: seq<Operation>, archive: Archive)
    ensures Run(r, ops, archive).limit == r.limit
    decreases |ops|
  {
    if ops == [] {
    } else {
      StepKeepsLimit(r, ops[0], archive);
      RunKeepsLimit(Step(r, ops[0], archive), ops[1..], archive);
    }
  }

  /** So the files of a report that starts empty never exceed its limit by more than an empty archive. */
  lemma {:induction false} NewReportKeepsBudget(limit: nat, ops: seq<Operation>, archive: Archive)
    requires Compresses(archive) && AllCleanUp(ops)
    ensures var r := Run(Report(map[], 0, Some(limit)), ops, archive);
            archive(r.files) <= archive(map[]) + Min(r.curDumpSize, limit)
  {
    RunsKeepBudget(Report(map[], 0, Some(limit)), ops, archive);
    RunKeepsLimit(Report(map[], 0, Some(limit)), ops, archive);
  }

  ghost predicate AlwaysKeepsBudget(op: Operation) {
    forall r: Report, archive: Archive ::
      Compresses(archive) && InBudget(r, archive) ==> InBudget(Step(r, op, archive), archive)
  }

  /**
   The operations that keep the budget of every report are exactly those that clean up: the partial
   copy of a file given with its directory stays behind, unaccounted.
   */
  lemma {:induction false} BudgetNeedsCleanUp(op: Operation)
    ensures AlwaysKeepsBudget(op) <==> CleansUp(op)
  {
    if CleansUp(op) {
      forall r: Report, archive: Archive | Compresses(archive) && InBudget(r, archive)
        ensures InBudget(Step(r, op, archive), archive)
      {
        StepKeepsBudget(r, op, archive);
      }
    } else {
      var archive := (files: Files) => if op.baseName in files then files[op.baseName] else 0;
      var r := Report(map[], 0, Some(0));
      assert Compresses(archive) && InBudget(r, archive);
      assert archive(Step(r, op, archive).files) == op.copied.value;
      assert !InBudget(Step(r, op, archive), archive);
    }
  }

  // ----- no needless refusals ----------------------------------------------------------------

  /** Total raw size. */
  ghost function Sum(files: Files): nat
    decreases |files|
  {
    if files == map[] then 0
    else
      var f :| f in files;
      files[f] + Sum(files - {f})
  }

  lemma {:induction false} SumRemove(files: Files, f: string)
    requires f in files
    ensures Sum(files) == files[f] + Sum(files - {f})
    decreases |files|
  {
    var g :| g in files && Sum(files) == files[g] + Sum(files - {g});
    if g != f {
      SumRemove(files - {g}, f);
      SumRemove(files - {f}, g);
      assert files - {g} - {f} == files - {f} - {g};
    }
  }

  lemma {:induction false} SumUpdate(files: Files, f: string, size: nat)
    ensures Sum(files[f := size]) == size + Sum(files - {f})
    ensures Sum(files) == Sum(files - {f}) + if f in files then files[f] else 0
  {
    SumRemove(files[f := size], f);
    assert files[f := size] - {f} == files - {f};
    if f in files {
      SumRemove(files, f);
    } else {
      assert files - {f} == files;
    }
  }

  lemma {:induction false} ArchiveFits(files: Files, archive: Archive)
    requires Compresses(archive)
    ensures archive(files) <= archive(map[]) + Sum(files)
    decreases |files|
  {
    if f :| f in files {
      SumRemove(files, f);
      ArchiveFits(files - {f}, archive);
      assert files[f := files[f]] == files;
    } else {
      assert files == map[];
    }
  }

  /** Bytes an operation adds to the report at most. */
  function Produced(op: Operation): nat {
    match op
    case CheckSize(_) => 0
    case CommandOutput(_, appended, _) => appended
    case CopyFile(_, _, copied, _) => if copied.Some? then copied.value else 0
  }

  function AllProduced(ops: seq<Operation>): nat {
    if ops == [] then 0 else Produced(ops[0]) + AllProduced(ops[1..])
  }

  /** A check with room for everything raw only changes the running size. */
  lemma {:induction false} CheckAccepts(r: Report, source: string, archive: Archive)
    requires Compresses(archive) && source in r.files && r.limit.Some?
    requires archive(map[]) + Sum(r.files) <= r.limit.value
    ensures AfterCheck(r, source, archive).0.files == r.files
  {
    ArchiveFits(r.files, archive);
  }

  lemma {:induction false} UnlimitedCommand(r: Report, name: string, appended: nat, ok: bool, archive: Archive)
    ensures var files := r.files[name := (if name in r.files then r.files[name] else 0) + appended];
            AfterCommand(r.(limit := None), name, appended, ok, archive).files == if ok then files else files - {name}
  {
  }

  lemma {:induction false} CommandRefusesNothing(r: Report, name: string, appended: nat, ok: bool, archive: Archive)
    requires Compresses(archive) && r.limit.Some?
    requires archive(map[]) + Sum(r.files) + appended <= r.limit.value
    ensures var r' := AfterCommand(r, name, appended, ok, archive);
            && r'.files == AfterCommand(r.(limit := None), name, appended, ok, archive).files
            && Sum(r'.files) <= Sum(r.files) + appended
  {
    hide Compresses, Sum;
    var size := (if name in r.files then r.files[name] else 0) + appended;
    var files := r.files[name := size];
    SumUpdate(r.files, name, size);
    assert files - {name} == r.files - {name};
    CheckAccepts(r.(files := files), name, archive);
    hide AfterCheck;
    UnlimitedCommand(r, name, appended, ok, archive);
  }

  lemma {:induction false} CopyRefusesNothing(r: Report, path: string, baseName: string, copied: Option<nat>, ok: bool, archive: Archive)
    requires Compresses(archive) && r.limit.Some?
    requires archive(map[]) + Sum(r.files) + (if copied.Some? then copied.value else 0) <= r.limit.value
    ensures var r' := AfterCopy(r, path, baseName, copied, ok, archive);
            && r'.files == AfterCopy(r.(limit := None), path, baseName, copied, ok, archive).files
            && Sum(r'.files) <= Sum(r.files) + (if copied.Some? then copied.value else 0)
  {
    var files := if copied.Some? then r.files[baseName := copied.value] else r.files;
    SumUpdate(r.files, baseName, if copied.Some? then copied.value else 0);
    SumUpdate(files, path, 0);
    if baseName in files {
      CheckAccepts(r.(files := files), baseName, archive);
    }
    hide Compresses, Sum;
  }

  lemma {:induction false} StepRefusesNothing(r: Report, op: Operation, archive: Archive)
    requires Compresses(archive) && r.limit.Some?
    requires archive(map[]) + Sum(r.files) + Produced(op) <= r.limit.value
    ensures Step(r, op, archive).files == Step(r.(limit := None), op, archive).files
    ensures Sum(Step(r, op, archive).files) <= Sum(r.files) + Produced(op)
  {
    match op {
      case CheckSize(source) =>
        if source in r.files {
          CheckAccepts(r, source, archive);
        }
      case CommandOutput(name, appended, ok) => CommandRefusesNothing(r, name, appended, ok, archive);
      case CopyFile(path, baseName, copied, ok) => CopyRefusesNothing(r, path, baseName, copied, ok, archive);
    }
    hide Compresses, Sum, AfterCommand, AfterCopy;
  }

  /**
   A limit that has room for everything raw, beside an empty archive, removes nothing, although the
   running size counts a file again on every append: the report has the files of an unlimited one.
   */
  lemma {:induction false} RoomForAllRefusesNothing(r: Report, ops: seq<Operation>, archive: Archive)
    requires Compresses(archive) && r.limit.Some?
    requires archive(map[]) + Sum(r.files) + AllProduced(ops) <= r.limit.value
    ensures Run(r, ops, archive).files == Run(r.(limit := None), ops, archive).files
    decreases |ops|
  {
    if ops == [] {
    } else {
      var r', u := Step(r, ops[0], archive), Step(r.(limit := None), ops[0], archive);
      StepRefusesNothing(r, ops[0], archive);
      StepKeepsLimit(r, ops[0], archive);
      StepKeepsLimit(r.(limit := None), ops[0], archive);
      hide Step, Compresses, Sum;
      RoomForAllRefusesNothing(r', ops[1..], archive);
      UnlimitedForgetsSize(r'.(limit := None), u, ops[1..], archive);
    }
  }

  lemma {:induction false} UnlimitedForgetsSize(a: Report, b: Report, ops: seq<Operation>, archive: Archive)
    requires a.limit.None? && b.limit.None? && a.files == b.files
    ensures Run(a, ops, archive).files == Run(b, ops, archive).files
    decreases |ops|
  {
    if ops == [] {
    } else {
      UnlimitedForgetsSize(Step(a, ops[0], archive), Step(b, ops[0], archive), ops[1..], archive);
    }
  }

  // ----- the shell functions -----------------------------------------------------------------

  class Dreport {
    const archive: Archive
    const dumpSize: Option<nat>
    var files: Files
    var curDumpSize: nat

    constructor (archive: Archive, dumpSize: Option<nat>)
      ensures this.archive == archive && View() == Report(map[], 0, dumpSize)
    {
      this.archive, this.dumpSize := archive, dumpSize;
      files, curDumpSize := map[], 0;
    }

    function View(): Report
      reads this
    {
      Report(files, curDumpSize, dumpSize)
    }

    method CheckSizeOf(source: string) returns (v: Verdict)
      requires source in files
      modifies this
      ensures (View(), v) == AfterCheck(old(View()), source, archive)
    {
      if dumpSize.None? {
        return Accepted;
      }
      var size := files[source];
      if size + curDumpSize > dumpSize.value {
        size := archive(files);
        if size > dumpSize.value {
          files := files - {source};
          return ResourceUnavailable;
        }
      }
      curDumpSize := size + curDumpSize;
      v := Accepted;
    }

    method AddCmdOutput(name: string, appended: nat, ok: bool)
      modifies this
      ensures View() == AfterCommand(old(View()), name, appended, ok, archive)
    {
      files := files[name := (if name in files then files[name] else 0) + appended];
      if !ok {
        files := files - {name};
        return;
      }
      var v := CheckSizeOf(name);
    }

    method AddCopyFile(path: string, baseName: string, copied: Option<nat>, ok: bool)
      modifies this
      ensures View() == AfterCopy(old(View()), path, baseName, copied, ok, archive)
    {
      if copied.Some? {
        files := files[baseName := copied.value];
      }
      if !ok {
        files := files - {path};
      } else if baseName in files {
        var v := CheckSizeOf(baseName);
      }
    }
  }
}
