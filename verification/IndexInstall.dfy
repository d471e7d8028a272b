/**
 `normalize_inputs` and `build_index` of index_dotnet_types.py: an index is built in a temporary file
 beside the output path and then installed.  Every call that can raise is a step that may fail
 (`os.path.lexists` cannot), and another process may change the output path between any two steps.
 */
module IndexInstall {

  datatype Row = Row(file: string, ns: string, typeName: string, kind: string)

  datatype Content = Other(id: nat) | Index(rows: seq<Row>)

  /** What is at the output path. */
  datatype Node = Absent | Regular(content: Content) | Directory | Symlink(toRegular: bool)

  datatype Temp = NoTemp | Building(rows: seq<Row>) | Committed(rows: seq<Row>)

  /** The rows of each source file, in the order of the walk, and the `--replace` option. */
  datatype Config = Config(files: seq<seq<Row>>, replace: bool)

  datatype Pc =
    | CheckSources | CheckExists | CheckSymlink | CheckRegular | CheckReplace
    | MakeTemp | CloseDescriptor
    | Connect | CreateTables | Scan | Commit | CloseConnection | Install | UnlinkTemp
    | CleanupClose | CleanupUnlink
    | Returned | Raised

  /** The failures that decide what is left behind. */
  datatype Fault = DescriptorFault | UnlinkFault | CleanupCloseFault | CleanupUnlinkFault

  /** One installation: what was at the output path and the index put there. */
  datatype Installed = Installed(before: Node, rows: seq<Row>)

  datatype State = State(
    pc: Pc,
    output: Node,
    existed: bool,
    temp: Temp,
    connected: bool,
    scanned: nat,
    inserted: nat,
    installs: seq<Installed>,
    faults: set<Fault>)

  function Complete(files: seq<seq<Row>>): seq<Row> {
    if files == [] then [] else Complete(files[..|files| - 1]) + files[|files| - 1]
  }

  // ---------------------------------------------------------------------------------------------
  // Steps
  // ---------------------------------------------------------------------------------------------

  ghost predicate IsInitial(s: State) {
    s == State(CheckSources, s.output, false, NoTemp, false, 0, 0, [], {})
  }

  function Fails(s: State): State {
    s.(pc := CleanupClose)
  }

  /** The atomic install: a rename over the output path, or a link that needs it to be absent. */
  ghost predicate InstallStep(c: Config, s: State, s': State)
    requires s.temp.Committed?
  {
    var done := s.(output := Regular(Index(s.temp.rows)), installs := s.installs + [Installed(s.output, s.temp.rows)]);
    || s' == Fails(s)
    || (c.replace && s.output != Directory && s' == done.(pc := Returned, temp := NoTemp))
    || (!c.replace && s.output == Absent && s' == done.(pc := UnlinkTemp))
  }

  ghost predicate ScanStep(c: Config, s: State, s': State)
    requires s.temp.Building?
  {
    || s' == Fails(s)
    || if s.scanned < |c.files| then
         var rows := c.files[s.scanned];
         s' == s.(scanned := s.scanned + 1, inserted := s.inserted + |rows|, temp := Building(s.temp.rows + rows))
       else s' == s.(pc := Commit)
  }

  /** The checks of `normalize_inputs` and the creation of the temporary file.  Each looks at the
      output path anew. */
  ghost predicate CheckStep(c: Config, s: State, s': State) {
    match s.pc
    case CheckSources => s' == s.(pc := CheckExists) || s' == s.(pc := Raised)
    case CheckExists => s' == s.(pc := CheckSymlink, existed := s.output != Absent)
    case CheckSymlink =>
      || s' == s.(pc := if s.existed && s.output.Symlink? then Raised else CheckRegular)
      || (s.existed && s' == s.(pc := Raised))
    case CheckRegular =>
      var isFile := s.output.Regular? || (s.output.Symlink? && s.output.toRegular);
      || s' == s.(pc := if s.existed && !isFile then Raised else CheckReplace)
      || (s.existed && s' == s.(pc := Raised))
    case CheckReplace => s' == s.(pc := if s.existed && !c.replace then Raised else MakeTemp)
    case MakeTemp => s' == s.(pc := CloseDescriptor, temp := Building([])) || s' == s.(pc := Raised)
    case _ => false
  }

  /** From the temporary file to the closed database.  The descriptor is closed in front of the
      `try`, so a failure there is not cleaned up. */
  ghost predicate BuildStep(c: Config, s: State, s': State) {
    match s.pc
    case CloseDescriptor => s' == s.(pc := Connect) || s' == s.(pc := Raised, faults := s.faults + {DescriptorFault})
    case Connect => s' == s.(pc := CreateTables, connected := true) || s' == Fails(s)
    case CreateTables => s' == s.(pc := Scan) || s' == Fails(s)
    case Scan => s.temp.Building? && ScanStep(c, s, s')
    case Commit => s.temp.Building? && (s' == s.(pc := CloseConnection, temp := Committed(s.temp.rows)) || s' == Fails(s))
    case CloseConnection => s' == s.(pc := Install, connected := false) || s' == Fails(s)
    case _ => false
  }

  ghost predicate FinishStep(c: Config, s: State, s': State) {
    match s.pc
    case Install => s.temp.Committed? && InstallStep(c, s, s')
    case UnlinkTemp => s' == s.(pc := Returned, temp := NoTemp) || s' == Fails(s).(faults := s.faults + {UnlinkFault})
    case _ => false
  }

  /** The exception handler: close the connection if it is open, then remove the temporary file. */
  ghost predicate CleanupStep(s: State, s': State) {
    match s.pc
    case CleanupClose =>
      || s' == s.(pc := CleanupUnlink, connected := false)
      || (s.connected && s' == s.(pc := Raised, faults := s.faults + {CleanupCloseFault}))
    case CleanupUnlink =>
      || s' == s.(pc := Raised, temp := NoTemp)
      || s' == s.(pc := Raised, faults := s.faults + {CleanupUnlinkFault})
    case _ => false
  }

  ghost predicate ToolStep(c: Config, s: State, s': State) {
    CheckStep(c, s, s') || BuildStep(c, s, s') || FinishStep(c, s, s') || CleanupStep(s, s')
  }

  /** Another process changes what is at the output path, to anything. */
  ghost predicate EnvironmentStep(s: State, s': State) {
    s' == s.(output := s'.output)
  }

  ghost predicate IsRun(c: Config, run: seq<State>) {
    && run != []
    && IsInitial(run[0])
    && forall i, j :: 0 <= i && j == i + 1 < |run| ==> ToolStep(c, run[i], run[j]) || EnvironmentStep(run[i], run[j])
  }

  // ---------------------------------------------------------------------------------------------
  // What every run keeps
  // ---------------------------------------------------------------------------------------------

  predicate IsEnd(pc: Pc) {
    pc == Returned || pc == Raised
  }

  predicate IsBefore(pc: Pc) {
    pc.CheckSources? || pc.CheckExists? || pc.CheckSymlink? || pc.CheckRegular? || pc.CheckReplace? || pc.MakeTemp?
  }

  predicate IsBuilding(pc: Pc) {
    pc.CloseDescriptor? || pc.Connect? || pc.CreateTables? || pc.Scan? || pc.Commit?
  }

  predicate IsCommitted(pc: Pc) {
    pc.CloseConnection? || pc.Install? || pc.UnlinkTemp?
  }

  predicate IsCleanup(pc: Pc) {
    pc == CleanupClose || pc == CleanupUnlink
  }

  /** The temporary file, while it is there, holds the files scanned so far; committed, all. */
  ghost predicate TempFits(c: Config, s: State) {
    && s.scanned <= |c.files|
    && s.inserted == |Complete(c.files[..s.scanned])|
    && (s.temp.Building? ==> s.temp.rows == Complete(c.files[..s.scanned]))
    && (s.temp.Committed? ==> s.temp.rows == Complete(c.files))
    && (IsBefore(s.pc) ==> s.temp == NoTemp && s.scanned == 0)
    && (IsBuilding(s.pc) ==> s.temp.Building?)
    && (s.pc == Commit ==> s.scanned == |c.files|)
    && (IsCommitted(s.pc) ==> s.temp.Committed?)
    && (IsCleanup(s.pc) ==> s.temp != NoTemp)
    && (IsCommitted(s.pc) || s.pc == Returned ==> s.scanned == |c.files|)
  }

  /** At most one install, of the complete index, and without `--replace` onto an absent path. */
  ghost predicate InstallsFit(c: Config, s: State) {
    && |s.installs| <= 1
    && (forall i :: i in s.installs ==> i.rows == Complete(c.files) && i.before != Directory && (!c.replace ==> i.before == Absent))
    && (s.pc == UnlinkTemp || s.pc == Returned ==> s.installs != [])
    && (s.installs != [] <==> s.pc == UnlinkTemp || s.pc == Returned || UnlinkFault in s.faults)
    && (s.pc == Returned ==> s.temp == NoTemp)
    && (s.pc == UnlinkTemp || UnlinkFault in s.faults ==> !c.replace)
  }

  ghost predicate FaultsFit(s: State) {
    && (UnlinkFault in s.faults ==> IsCleanup(s.pc) || s.pc == Raised)
    && (DescriptorFault in s.faults || CleanupCloseFault in s.faults || CleanupUnlinkFault in s.faults ==> s.pc == Raised)
    && (s.pc == Raised ==>
          (s.temp != NoTemp <==> DescriptorFault in s.faults || CleanupCloseFault in s.faults || CleanupUnlinkFault in s.faults))
  }

  ghost predicate Inv(c: Config, s: State) {
    TempFits(c, s) && InstallsFit(c, s) && FaultsFit(s)
  }

  lemma CompleteStep(files: seq<seq<Row>>, n: nat)
    requires n <= |files|
    ensures n == 0 ==> Complete(files[..n]) == []
    ensures n < |files| ==> Complete(files[..n + 1]) == Complete(files[..n]) + files[n]
    ensures n == |files| ==> files[..n] == files
  {
    if n < |files| {
      assert files[..n + 1][..n] == files[..n];
    }
  }

  lemma CheckKeepsInv(c: Config, s: State, s': State)
    requires Inv(c, s) && s.pc != MakeTemp && CheckStep(c, s, s')
    ensures Inv(c, s')
  {
  }

  lemma MakeTempKeepsInv(c: Config, s: State, s': State)
    requires Inv(c, s) && s.pc == MakeTemp && CheckStep(c, s, s')
    ensures Inv(c, s')
  {
    CompleteStep(c.files, 0);
  }

  lemma FailureKeepsInv(c: Config, s: State)
    requires Inv(c, s) && (IsBuilding(s.pc) || s.pc == CloseConnection || s.pc == Install)
    ensures Inv(c, Fails(s))
  {
  }

  lemma ScannedFile(c: Config, s: State)
    requires Inv(c, s) && s.pc == Scan && s.scanned < |c.files|
    ensures var rows := c.files[s.scanned];
            Inv(c, s.(scanned := s.scanned + 1, inserted := s.inserted + |rows|, temp := Building(s.temp.rows + rows)))
  {
    CompleteStep(c.files, s.scanned);
  }

  lemma ScanKeepsInv(c: Config, s: State, s': State)
    requires Inv(c, s) && s.pc == Scan && BuildStep(c, s, s')
    ensures Inv(c, s')
  {
    FailureKeepsInv(c, s);
    if s.scanned < |c.files| {
      ScannedFile(c, s);
    }
  }

  lemma CommitKeepsInv(c: Config, s: State, s': State)
    requires Inv(c, s) && s.pc == Commit && BuildStep(c, s, s')
    ensures Inv(c, s')
  {
    CompleteStep(c.files, s.scanned);
  }

  lemma DescriptorKeepsInv(c: Config, s: State, s': State)
    requires Inv(c, s) && s.pc == CloseDescriptor && BuildStep(c, s, s')
    ensures Inv(c, s')
  {
  }

  lemma ConnectionKeepsInv(c: Config, s: State, s': State)
    requires Inv(c, s) && (s.pc == Connect || s.pc == CreateTables || s.pc == CloseConnection) && BuildStep(c, s, s')
    ensures Inv(c, s')
  {
    FailureKeepsInv(c, s);
  }

  lemma InstallKeepsInv(c: Config, s: State, s': State)
    requires Inv(c, s) && s.pc == Install && FinishStep(c, s, s')
    ensures Inv(c, s')
  {
    FailureKeepsInv(c, s);
  }

  lemma UnlinkKeepsInv(c: Config, s: State, s': State)
    requires Inv(c, s) && s.pc == UnlinkTemp && FinishStep(c, s, s')
    ensures Inv(c, s')
  {
  }

  lemma CleanupKeepsInv(c: Config, s: State, s': State)
    requires Inv(c, s) && CleanupStep(s, s')
    ensures Inv(c, s')
  {
  }

  lemma ToolKeepsInv(c: Config, s: State, s': State)
    requires Inv(c, s) && ToolStep(c, s, s')
    ensures Inv(c, s')
  {
    if CheckStep(c, s, s') {
      if s.pc == MakeTemp {
        MakeTempKeepsInv(c, s, s');
      } else {
        CheckKeepsInv(c, s, s');
      }
    } else if BuildStep(c, s, s') {
      if s.pc == Scan {
        ScanKeepsInv(c, s, s');
      } else if s.pc == Commit {
        CommitKeepsInv(c, s, s');
      } else if s.pc == CloseDescriptor {
        DescriptorKeepsInv(c, s, s');
      } else {
        ConnectionKeepsInv(c, s, s');
      }
    } else if FinishStep(c, s, s') {
      if s.pc == Install {
        InstallKeepsInv(c, s, s');
      } else {
        UnlinkKeepsInv(c, s, s');
      }
    } else {
      CleanupKeepsInv(c, s, s');
    }
  }

  lemma EnvironmentKeepsInv(c: Config, s: State, s': State)
    requires Inv(c, s) && EnvironmentStep(s, s')
    ensures Inv(c, s')
  {
  }

  lemma StartKeepsInv(c: Config, s: State)
    requires IsInitial(s)
    ensures Inv(c, s)
  {
    CompleteStep(c.files, 0);
  }

  lemma {:induction false} RunKeepsInv(c: Config, run: seq<State>)
    requires IsRun(c, run)
    ensures forall i :: 0 <= i < |run| ==> Inv(c, run[i])
  {
    StartKeepsInv(c, run[0]);
    var k := 0;
    while k < |run| - 1
      invariant 0 <= k < |run|
      invariant forall i :: 0 <= i <= k ==> Inv(c, run[i])
    {
      var j := k + 1;
      if ToolStep(c, run[k], run[j]) {
        ToolKeepsInv(c, run[k], run[j]);
      } else {
        EnvironmentKeepsInv(c, run[k], run[j]);
      }
      k := j;
    }
  }

  lemma InvAt(c: Config, run: seq<State>, i: nat)
    requires IsRun(c, run) && i < |run|
    ensures Inv(c, run[i])
  {
    RunKeepsInv(c, run);
  }

  /** What a caller can rely on when the tool has stopped, in every run: at most one install, always
      of the complete index, and never over anything without `--replace`; success means installed
      and nothing left behind; a failure that leaves an install behind is a failed removal of the
      temporary file after it; and the temporary file remains exactly if closing its descriptor or a
      step of the cleanup failed. */
  lemma EveryRunEndsWell(c: Config, run: seq<State>)
    requires IsRun(c, run)
    ensures var s := run[|run| - 1];
            && |s.installs| <= 1
            && (forall i :: i in s.installs ==> i.rows == Complete(c.files) && (!c.replace ==> i.before == Absent))
            && (s.pc == Returned ==> |s.installs| == 1 && s.temp == NoTemp && s.scanned == |c.files| && s.inserted == |Complete(c.files)|)
            && (s.pc == Raised ==> (s.installs != [] <==> UnlinkFault in s.faults))
            && (IsEnd(s.pc) ==>
                  (s.temp != NoTemp <==> s.faults * {DescriptorFault, CleanupCloseFault, CleanupUnlinkFault} != {}))
  {
    RunKeepsInv(c, run);
    var s := run[|run| - 1];
    assert Inv(c, s);
    assert s.scanned == |c.files| ==> c.files[..s.scanned] == c.files;
    var leaks := {DescriptorFault, CleanupCloseFault, CleanupUnlinkFault};
    assert s.faults * leaks != {} <==> exists f :: f in s.faults && f in leaks;
  }

  /** Between two moments of a run the output path changes only by another process, or by the one
      install, which puts the complete index there. */
  lemma OutputChangesOnlyByInstall(c: Config, run: seq<State>, i: nat)
    requires IsRun(c, run) && i + 1 < |run| && ToolStep(c, run[i], run[i + 1])
    ensures var s, s' := run[i], run[i + 1];
            if s'.installs == s.installs then s'.output == s.output
            else && s.installs == [] && s'.installs == [Installed(s.output, Complete(c.files))]
                 && s'.output == Regular(Index(Complete(c.files)))
  {
    RunKeepsInv(c, run);
    assert Inv(c, run[i]);
    StepEffect(c, run[i], run[i + 1]);
  }

  /** Only the step that installs touches the output path or the record of installs. */
  lemma ChecksAreQuiet(c: Config, s: State, s': State)
    requires CheckStep(c, s, s')
    ensures s'.installs == s.installs && s'.output == s.output
  {
  }

  lemma BuildingIsQuiet(c: Config, s: State, s': State)
    requires BuildStep(c, s, s')
    ensures s'.installs == s.installs && s'.output == s.output
  {
  }

  lemma CleanupIsQuiet(s: State, s': State)
    requires CleanupStep(s, s')
    ensures s'.installs == s.installs && s'.output == s.output
  {
  }

  lemma StepEffect(c: Config, s: State, s': State)
    requires Inv(c, s) && ToolStep(c, s, s')
    ensures if s'.installs == s.installs then s'.output == s.output
            else && s.installs == [] && s'.installs == [Installed(s.output, Complete(c.files))]
                 && s'.output == Regular(Index(Complete(c.files)))
  {
    if CheckStep(c, s, s') {
      ChecksAreQuiet(c, s, s');
    } else if BuildStep(c, s, s') {
      BuildingIsQuiet(c, s, s');
    } else if CleanupStep(s, s') {
      CleanupIsQuiet(s, s');
    } else {
      FinishEffect(c, s, s');
    }
  }

  lemma FinishEffect(c: Config, s: State, s': State)
    requires Inv(c, s) && FinishStep(c, s, s')
    ensures if s'.installs == s.installs then s'.output == s.output
            else && s.installs == [] && s'.installs == [Installed(s.output, Complete(c.files))]
                 && s'.output == Regular(Index(Complete(c.files)))
  {
  }

  /** A run that raises without an install has left every change of the output path to others. */
  lemma FailureLeavesOutputAlone(c: Config, run: seq<State>, i: nat)
    requires IsRun(c, run) && run[|run| - 1].installs == [] && i + 1 < |run|
    ensures run[i + 1].output == run[i].output || EnvironmentStep(run[i], run[i + 1])
  {
    var j := i + 1;
    InstallsGrow(run, i + 1, c);
    if ToolStep(c, run[i], run[j]) {
      OutputChangesOnlyByInstall(c, run, i);
    }
  }

  lemma StepKeepsInstalls(c: Config, s: State, s': State)
    requires Inv(c, s) && (ToolStep(c, s, s') || EnvironmentStep(s, s'))
    ensures s.installs <= s'.installs
  {
    if ToolStep(c, s, s') {
      StepEffect(c, s, s');
    }
  }

  lemma {:induction false} InstallsGrow(run: seq<State>, i: nat, c: Config)
    requires IsRun(c, run) && i < |run|
    ensures run[i].installs <= run[|run| - 1].installs
  {
    var k := i;
    while k < |run| - 1
      invariant i <= k < |run|
      invariant run[i].installs <= run[k].installs
    {
      var j := k + 1;
      InvAt(c, run, k);
      StepKeepsInstalls(c, run[k], run[j]);
      k := j;
    }
  }

  // ---------------------------------------------------------------------------------------------
  // Runs that exist
  // ---------------------------------------------------------------------------------------------

  ghost function Last(run: seq<State>): State
    requires run != []
  {
    run[|run| - 1]
  }

  /** Where the tool can start and get through its checks. */
  predicate IsAcceptable(c: Config, output: Node) {
    output == Absent || (output.Regular? && c.replace)
  }

  lemma Extended(c: Config, run: seq<State>, s: State) returns (r: seq<State>)
    requires IsRun(c, run) && ToolStep(c, Last(run), s)
    ensures IsRun(c, r) && Last(r) == s && r[0] == run[0]
  {
    r := run + [s];
    forall i, j | 0 <= i && j == i + 1 < |r|
      ensures ToolStep(c, r[i], r[j]) || EnvironmentStep(r[i], r[j])
    {
      if j < |run| {
        assert ToolStep(c, run[i], run[j]) || EnvironmentStep(run[i], run[j]);
      }
    }
  }

  /** The state in front of the `try`, and in the scan with `n` files done. */
  ghost function Opened(output: Node): State {
    State(CloseDescriptor, output, output != Absent, Building([]), false, 0, 0, [], {})
  }

  ghost function Scanning(c: Config, output: Node, n: nat): State
    requires n <= |c.files|
  {
    var rows := Complete(c.files[..n]);
    State(Scan, output, output != Absent, Building(rows), true, n, |rows|, [], {})
  }

  ghost function Ready(c: Config, output: Node): State {
    var rows := Complete(c.files);
    State(Install, output, output != Absent, Committed(rows), false, |c.files|, |rows|, [], {})
  }

  lemma RunToTemp(c: Config, output: Node) returns (run: seq<State>)
    requires IsAcceptable(c, output)
    ensures IsRun(c, run) && run[0].output == output && Last(run) == Opened(output)
  {
    var s := State(CheckSources, output, false, NoTemp, false, 0, 0, [], {});
    run := [s];
    run := Extended(c, run, s.(pc := CheckExists));
    s := s.(pc := CheckSymlink, existed := output != Absent);
    run := Extended(c, run, s);
    run := Extended(c, run, s.(pc := CheckRegular));
    run := Extended(c, run, s.(pc := CheckReplace));
    run := Extended(c, run, s.(pc := MakeTemp));
    run := Extended(c, run, Opened(output));
  }

  lemma {:induction false} RunToScan(c: Config, output: Node, n: nat) returns (run: seq<State>)
    requires IsAcceptable(c, output) && n <= |c.files|
    ensures IsRun(c, run) && run[0].output == output && Last(run) == Scanning(c, output, n)
  {
    if n == 0 {
      run := RunToTemp(c, output);
      var s := Opened(output);
      CompleteStep(c.files, 0);
      run := Extended(c, run, s.(pc := Connect));
      run := Extended(c, run, s.(pc := CreateTables, connected := true));
      run := Extended(c, run, s.(pc := Scan, connected := true));
    } else {
      run := RunToScan(c, output, n - 1);
      CompleteStep(c.files, n - 1);
      run := Extended(c, run, Scanning(c, output, n));
    }
  }

  lemma RunToInstall(c: Config, output: Node) returns (run: seq<State>)
    requires IsAcceptable(c, output)
    ensures IsRun(c, run) && run[0].output == output && Last(run) == Ready(c, output)
  {
    run := RunToScan(c, output, |c.files|);
    var s := Scanning(c, output, |c.files|);
    CompleteStep(c.files, |c.files|);
    run := Extended(c, run, s.(pc := Commit));
    run := Extended(c, run, s.(pc := CloseConnection, temp := Committed(s.temp.rows)));
    run := Extended(c, run, Ready(c, output));
  }

  /** The state after the install. */
  ghost function Done(c: Config, output: Node, pc: Pc, temp: Temp): State {
    var rows := Complete(c.files);
    State(pc, Regular(Index(rows)), output != Absent, temp, false, |c.files|, |rows|, [Installed(output, rows)], {})
  }

  lemma RunToUnlink(c: Config) returns (run: seq<State>)
    requires !c.replace
    ensures IsRun(c, run) && run[0].output == Absent
    ensures Last(run) == Done(c, Absent, UnlinkTemp, Committed(Complete(c.files)))
  {
    run := RunToInstall(c, Absent);
    run := Extended(c, run, Done(c, Absent, UnlinkTemp, Committed(Complete(c.files))));
  }

  /** From every output path that passes the checks, some run returns with the complete index there
      and nothing else left behind. */
  lemma SomeRunReturns(c: Config, output: Node) returns (run: seq<State>)
    requires IsAcceptable(c, output)
    ensures IsRun(c, run) && run[0].output == output
    ensures var s := Last(run);
            && s.pc == Returned && s.temp == NoTemp
            && s.installs == [Installed(output, Complete(c.files))] && s.output == Regular(Index(Complete(c.files)))
  {
    if c.replace {
      run := RunToInstall(c, output);
    } else {
      run := RunToUnlink(c);
    }
    run := Extended(c, run, Done(c, output, Returned, NoTemp));
  }

  /** Without `--replace`, a run can raise although the index is installed: when the removal of the
      temporary file behind the link fails. */
  lemma UnlinkCanFail(c: Config) returns (run: seq<State>)
    requires !c.replace
    ensures RaisesInstalled(c, run)
  {
    run := RunToUnlink(c);
    var rows := Complete(c.files);
    var s := Done(c, Absent, CleanupClose, Committed(rows)).(faults := {UnlinkFault});
    run := Extended(c, run, s);
    s := Done(c, Absent, CleanupUnlink, Committed(rows)).(faults := {UnlinkFault});
    run := Extended(c, run, s);
    run := Extended(c, run, Done(c, Absent, Raised, NoTemp).(faults := {UnlinkFault}));
  }

  ghost predicate RaisesInstalled(c: Config, run: seq<State>) {
    IsRun(c, run) && Last(run).pc == Raised && Last(run).installs != []
  }

  /** With `--replace`, none can. */
  lemma RaisesInstalledWithoutReplace(c: Config)
    ensures (exists run :: RaisesInstalled(c, run)) <==> !c.replace
  {
    if run :| RaisesInstalled(c, run) {
      InvAt(c, run, |run| - 1);
    }
    if !c.replace {
      var run := UnlinkCanFail(c);
    }
  }

  /** With every configuration, a run can leave the temporary file behind: when closing its descriptor
      fails. */
  lemma DescriptorCanFail(c: Config, output: Node) returns (run: seq<State>)
    requires IsAcceptable(c, output)
    ensures IsRun(c, run) && run[0].output == output
    ensures Last(run).pc == Raised && Last(run).temp != NoTemp && Last(run).faults == {DescriptorFault}
  {
    run := RunToTemp(c, output);
    run := Extended(c, run, State(Raised, output, output != Absent, Building([]), false, 0, 0, [], {DescriptorFault}));
  }

  /** And so it can when removing the file fails after another failure. */
  lemma CleanupCanFail(c: Config, output: Node) returns (run: seq<State>)
    requires IsAcceptable(c, output)
    ensures IsRun(c, run) && run[0].output == output
    ensures Last(run).pc == Raised && Last(run).temp != NoTemp && Last(run).faults == {CleanupUnlinkFault}
  {
    run := RunToTemp(c, output);
    run := Extended(c, run, State(Connect, output, output != Absent, Building([]), false, 0, 0, [], {}));
    run := Extended(c, run, State(CleanupClose, output, output != Absent, Building([]), false, 0, 0, [], {}));
    run := Extended(c, run, State(CleanupUnlink, output, output != Absent, Building([]), false, 0, 0, [], {}));
    run := Extended(c, run, State(Raised, output, output != Absent, Building([]), false, 0, 0, [], {CleanupUnlinkFault}));
  }
}
