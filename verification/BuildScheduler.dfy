/** The build scheduler: jobs that take a build permit, then a synthesis permit, and give the latter
    back early when the tool's log shows that synthesis is over.  Every await is a point where other
    jobs run, so the scheduler is a state machine whose labels are the uninterrupted stretches of
    `Build.run` and of the two readers that scan the output of the tool. */
module BuildScheduler {
  import opened Sums

  datatype Tool = Plain | Vivado | Ise | Quartus

  /** Where `Build.run` is suspended; Crashed is a job whose coroutine raised an exception. */
  datatype Phase = Idle | WaitBuild | WaitSynth | Starting | Running | Packing | Finished | Crashed

  /** `readers` is how many of the two output streams are still being read: one reader that raises does not stop the
      other.  `buildRef` and `synthRef` say that the field build_sem or synth_sem is not None.  The four
      counters record how often the job acquired and released each semaphore. */
  datatype Job = Job(tool: Tool, phase: Phase, readers: nat, buildRef: bool, synthRef: bool,
                     buildTaken: nat, buildGiven: nat, synthTaken: nat, synthGiven: nat)

  /** `build` and `synth` are the values of the two semaphores. */
  datatype State = State(jobs: seq<Job>, build: nat, synth: nat)

  datatype Label =
    | Begin(i: nat)
    | AcquireBuild(i: nat)
    | AcquireSynth(i: nat)
    | Spawn(i: nat)
    | SpawnFails(i: nat)
    | LogLine(i: nat, line: string)
    | StreamEnds(i: nat)
    | ReaderRaises(i: nat)
    | Gathered(i: nat)
    | Packed(i: nat)
    | PackingFails(i: nat)

  predicate Raises(l: Label) { l.SpawnFails? || l.ReaderRaises? || l.PackingFails? }

  predicate StartsWith(s: string, p: string) { p <= s }

  /** The log lines on which each tool's scanner calls synth_done. */
  predicate EndsSynthesis(tool: Tool, line: string) {
    match tool
    case Plain => false
    case Vivado => line == "vivado -nojournal -nolog -mode batch -source run_impl.tcl"
    case Ise => StartsWith(line, "ngdbuild")
    case Quartus => StartsWith(line, "quartus_fit")
  }

  // ---------------------------------------------------------------- the operations of one job

  function Put(s: State, i: nat, j: Job): State
    requires i < |s.jobs|
  {
    s.(jobs := s.jobs[i := j])
  }

  function SynthDone(s: State, i: nat): State
    requires i < |s.jobs|
  {
    var j := s.jobs[i];
    if j.synthRef then Put(s, i, j.(synthRef := false, synthGiven := j.synthGiven + 1)).(synth := s.synth + 1) else s
  }

  function BuildDone(s: State, i: nat): State
    requires i < |s.jobs|
  {
    var j := s.jobs[i];
    if j.buildRef then Put(s, i, j.(buildRef := false, buildGiven := j.buildGiven + 1)).(build := s.build + 1) else s
  }

  predicate Enabled(s: State, l: Label) {
    && l.i < |s.jobs|
    && var j := s.jobs[l.i];
       match l
       case Begin(_) => j.phase == Idle
       case AcquireBuild(_) => j.phase == WaitBuild && s.build > 0
       case AcquireSynth(_) => j.phase == WaitSynth && s.synth > 0
       case Spawn(_) => j.phase == Starting
       case SpawnFails(_) => j.phase == Starting
       case LogLine(_, _) => j.readers > 0
       case StreamEnds(_) => j.readers > 0
       case ReaderRaises(_) => j.readers > 0
       case Gathered(_) => j.phase == Running && j.readers == 0
       case Packed(_) => j.phase == Packing
       case PackingFails(_) => j.phase == Packing
  }

  function Apply(s: State, l: Label): State
    requires Enabled(s, l)
  {
    var j := s.jobs[l.i];
    match l
    case Begin(i) => Put(s, i, j.(phase := WaitBuild, buildRef := true, synthRef := true))
    case AcquireBuild(i) => Put(s, i, j.(phase := WaitSynth, buildTaken := j.buildTaken + 1)).(build := s.build - 1)
    case AcquireSynth(i) => Put(s, i, j.(phase := Starting, synthTaken := j.synthTaken + 1)).(synth := s.synth - 1)
    case Spawn(i) => Put(s, i, j.(phase := Running, readers := 2))
    case SpawnFails(i) => Put(s, i, j.(phase := Crashed))
    case LogLine(i, line) => if EndsSynthesis(j.tool, line) then SynthDone(s, i) else s
    case StreamEnds(i) => Put(s, i, j.(readers := j.readers - 1))
    case ReaderRaises(i) => Put(s, i, j.(phase := Crashed, readers := j.readers - 1))
    case Gathered(i) =>
      var t := BuildDone(SynthDone(s, i), i);
      Put(t, i, t.jobs[i].(phase := Packing))
    case Packed(i) => Put(s, i, j.(phase := Finished))
    case PackingFails(i) => Put(s, i, j.(phase := Crashed))
  }

  predicate Initial(s: State, buildLimit: nat, synthLimit: nat) {
    && s.build == buildLimit && s.synth == synthLimit
    && forall j | j in s.jobs :: j == Job(j.tool, Idle, 0, false, false, 0, 0, 0, 0)
  }

  /** The labels, taken in order, lead from s to t. */
  ghost predicate Steps(s: State, labels: seq<Label>, t: State)
    decreases |labels|
  {
    if labels == [] then s == t
    else Enabled(s, labels[0]) && Steps(Apply(s, labels[0]), labels[1..], t)
  }

  ghost predicate IsRun(s0: State, labels: seq<Label>, s: State, buildLimit: nat, synthLimit: nat) {
    Initial(s0, buildLimit, synthLimit) && Steps(s0, labels, s)
  }

  // ---------------------------------------------------------------- what every job keeps

  predicate JobOk(j: Job) {
    && j.readers <= 2 && (j.readers > 0 ==> j.phase == Running || j.phase == Crashed)
    && match j.phase
       case Idle => j.buildTaken == j.buildGiven == j.synthTaken == j.synthGiven == 0 && !j.buildRef && !j.synthRef
       case WaitBuild => j.buildTaken == j.buildGiven == j.synthTaken == j.synthGiven == 0 && j.buildRef && j.synthRef
       case WaitSynth => j.buildTaken == 1 && j.buildGiven == j.synthTaken == j.synthGiven == 0 && j.buildRef
           && j.synthRef
       case Starting => j.buildTaken == j.synthTaken == 1 && j.buildGiven == j.synthGiven == 0 && j.buildRef
           && j.synthRef
       case Running => j.buildTaken == j.synthTaken == 1 && j.buildGiven == 0 && j.buildRef && SynthOk(j)
       case Packing => AllReturned(j)
       case Finished => AllReturned(j)
       case Crashed => j.buildTaken == j.synthTaken == 1 && SynthOk(j) && BuildOk(j)
  }

  predicate SynthOk(j: Job) { j.synthGiven == if j.synthRef then 0 else 1 }
  predicate BuildOk(j: Job) { j.buildGiven == if j.buildRef then 0 else 1 }

  /** Each permit was taken once and given back once. */
  predicate AllReturned(j: Job) {
    j.buildTaken == j.buildGiven == j.synthTaken == j.synthGiven == 1 && !j.buildRef && !j.synthRef
  }

  function BuildHeld(j: Job): int { j.buildTaken - j.buildGiven }
  function SynthHeld(j: Job): int { j.synthTaken - j.synthGiven }

  ghost predicate Inv(s: State, buildLimit: nat, synthLimit: nat) {
    && (forall j | j in s.jobs :: JobOk(j))
    && s.build + Sum(s.jobs, BuildHeld) == buildLimit
    && s.synth + Sum(s.jobs, SynthHeld) == synthLimit
  }

  lemma PutKeeps(s: State, i: nat, j: Job, buildLimit: nat, synthLimit: nat, build: nat, synth: nat)
    requires i < |s.jobs| && Inv(s, buildLimit, synthLimit) && JobOk(j)
    requires build + BuildHeld(j) == s.build + BuildHeld(s.jobs[i])
    requires synth + SynthHeld(j) == s.synth + SynthHeld(s.jobs[i])
    ensures Inv(State(s.jobs[i := j], build, synth), buildLimit, synthLimit)
  {
    SumUpdate(s.jobs, i, j, BuildHeld);
    SumUpdate(s.jobs, i, j, SynthHeld);
  }

  /** A step changes one job, keeps its books, and moves permits only between it and the semaphores. */
  lemma JobSteps(s: State, l: Label)
    requires Enabled(s, l) && JobOk(s.jobs[l.i])
    ensures var t := Apply(s, l);
            && |t.jobs| == |s.jobs| && t.jobs == s.jobs[l.i := t.jobs[l.i]] && JobOk(t.jobs[l.i])
            && t.build + BuildHeld(t.jobs[l.i]) == s.build + BuildHeld(s.jobs[l.i])
            && t.synth + SynthHeld(t.jobs[l.i]) == s.synth + SynthHeld(s.jobs[l.i])
  {
  }

  /** Every step keeps the conservation of permits and the bookkeeping of every job. */
  lemma StepKeepsInv(s: State, l: Label, buildLimit: nat, synthLimit: nat)
    requires Inv(s, buildLimit, synthLimit) && Enabled(s, l)
    ensures Inv(Apply(s, l), buildLimit, synthLimit) && |Apply(s, l).jobs| == |s.jobs|
    ensures l.LogLine? && !SynthesisOver(s.jobs[l.i].tool, l.line) ==> Apply(s, l) == s
    ensures l.LogLine? && SynthesisOver(s.jobs[l.i].tool, l.line) ==> !Apply(s, l).jobs[l.i].synthRef
  {
    var t := Apply(s, l);
    assert s.jobs[l.i] in s.jobs;
    JobSteps(s, l);
    PutKeeps(s, l.i, t.jobs[l.i], buildLimit, synthLimit, t.build, t.synth);
  }

  lemma {:induction false} StepsKeepInv(s: State, labels: seq<Label>, t: State, buildLimit: nat, synthLimit: nat)
    requires Inv(s, buildLimit, synthLimit) && Steps(s, labels, t)
    ensures Inv(t, buildLimit, synthLimit) && |t.jobs| == |s.jobs|
    decreases |labels|
  {
    if labels != [] {
      StepKeepsInv(s, labels[0], buildLimit, synthLimit);
      StepsKeepInv(Apply(s, labels[0]), labels[1..], t, buildLimit, synthLimit);
    }
  }

  lemma InitialInv(s: State, buildLimit: nat, synthLimit: nat)
    requires Initial(s, buildLimit, synthLimit)
    ensures Inv(s, buildLimit, synthLimit)
  {
    SumBounds(s.jobs, BuildHeld, 0, 0);
    SumBounds(s.jobs, SynthHeld, 0, 0);
  }

  lemma RunKeepsInv(s0: State, labels: seq<Label>, s: State, buildLimit: nat, synthLimit: nat)
    requires IsRun(s0, labels, s, buildLimit, synthLimit)
    ensures Inv(s, buildLimit, synthLimit) && |s.jobs| == |s0.jobs|
  {
    InitialInv(s0, buildLimit, synthLimit);
    StepsKeepInv(s0, labels, s, buildLimit, synthLimit);
  }

  // ---------------------------------------------------------------- deadlock

  predicate Unfinished(j: Job) { j.phase != Finished && j.phase != Crashed }
  predicate Waiting(j: Job) { j.phase == WaitBuild || j.phase == WaitSynth }

  ghost predicate SomeIn(s: State, p: Phase) { exists i :: 0 <= i < |s.jobs| && s.jobs[i].phase == p }
  ghost predicate SomeUnfinished(s: State) { exists i :: 0 <= i < |s.jobs| && Unfinished(s.jobs[i]) }

  /** Some continuation leads to a step of an unfinished job. */
  ghost predicate CanAdvance(s: State) {
    exists labels, t, l :: Steps(s, labels, t) && Enabled(t, l) && Unfinished(t.jobs[l.i])
  }

  /** Work is left, and whatever the readers of crashed jobs may still see, no unfinished job will ever take a step. */
  ghost predicate Deadlocked(s: State) { SomeUnfinished(s) && !CanAdvance(s) }

  /** A crashed job never gives its build permit back.  Its synthesis permit can still come back with a log line, unless
      both streams have ended or the tool has no such line. */
  function BuildLost(j: Job): int { if j.phase == Crashed then BuildHeld(j) else 0 }
  function SynthLost(j: Job): int {
    if j.phase == Crashed && (j.readers == 0 || j.tool == Plain) then SynthHeld(j) else 0
  }
  function CrashedSynth(j: Job): int { if j.phase == Crashed then SynthHeld(j) else 0 }
  function InSynthQueue(j: Job): int { if j.phase == WaitSynth then 1 else 0 }

  ghost predicate OnlyWaiting(s: State) { forall j | j in s.jobs && Unfinished(j) :: Waiting(j) }

  /** With only waiting jobs left, every missing permit is with a crashed job, or with a job that
      queues for synthesis. */
  lemma PermitsWhenWaiting(s: State, buildLimit: nat, synthLimit: nat)
    requires Inv(s, buildLimit, synthLimit) && OnlyWaiting(s)
    ensures s.synth + Sum(s.jobs, CrashedSynth) == synthLimit
    ensures s.build + Sum(s.jobs, BuildLost) + Sum(s.jobs, InSynthQueue) == buildLimit
  {
    SumSame(s.jobs, SynthHeld, CrashedSynth);
    SumSplit(s.jobs, BuildHeld, BuildLost, InSynthQueue);
  }

  /** All remaining jobs wait, and the permits their queues need are lost for good. */
  ghost predicate Stuck(s: State, buildLimit: nat, synthLimit: nat) {
    && SomeUnfinished(s) && OnlyWaiting(s)
    && (SomeIn(s, WaitSynth) ==> Sum(s.jobs, SynthLost) == synthLimit)
    && (SomeIn(s, WaitBuild) ==> Sum(s.jobs, BuildLost) + Sum(s.jobs, InSynthQueue) == buildLimit)
  }

  /** When the permits the queues need are lost, both semaphores that matter are empty. */
  lemma StuckIsEmpty(s: State, buildLimit: nat, synthLimit: nat)
    requires Inv(s, buildLimit, synthLimit) && Stuck(s, buildLimit, synthLimit)
    ensures SomeIn(s, WaitSynth) ==> s.synth == 0 && Sum(s.jobs, SynthLost) >= Sum(s.jobs, CrashedSynth)
    ensures SomeIn(s, WaitBuild) ==> s.build == 0
  {
    PermitsWhenWaiting(s, buildLimit, synthLimit);
    SumMonotone(s.jobs, SynthLost, CrashedSynth);
  }

  lemma StuckOnlyCrashedMove(s: State, l: Label, buildLimit: nat, synthLimit: nat)
    requires Inv(s, buildLimit, synthLimit) && Stuck(s, buildLimit, synthLimit) && Enabled(s, l)
    ensures s.jobs[l.i].phase == Crashed && (l.LogLine? || l.StreamEnds? || l.ReaderRaises?)
  {
    StuckIsEmpty(s, buildLimit, synthLimit);
    var j := s.jobs[l.i];
    assert j in s.jobs && JobOk(j) && s.jobs[l.i].phase == j.phase;
  }

  /** What a reader of a crashed job does when the permits are lost: it changes nothing that matters. */
  lemma CrashedStep(s: State, l: Label, lost: bool)
    requires Enabled(s, l) && s.jobs[l.i].phase == Crashed && (l.LogLine? || l.StreamEnds? || l.ReaderRaises?)
    requires JobOk(s.jobs[l.i]) && (lost ==> SynthLost(s.jobs[l.i]) == CrashedSynth(s.jobs[l.i]))
    ensures var t := Apply(s, l);
            && |t.jobs| == |s.jobs| && t.jobs == s.jobs[l.i := t.jobs[l.i]] && t.jobs[l.i].phase == Crashed
            && BuildLost(t.jobs[l.i]) == BuildLost(s.jobs[l.i])
            && (lost ==> SynthLost(t.jobs[l.i]) == SynthLost(s.jobs[l.i]))
  {
  }

  lemma StuckStays(s: State, l: Label, buildLimit: nat, synthLimit: nat)
    requires Inv(s, buildLimit, synthLimit) && Stuck(s, buildLimit, synthLimit) && Enabled(s, l)
    ensures s.jobs[l.i].phase == Crashed && Stuck(Apply(s, l), buildLimit, synthLimit)
  {
    StuckOnlyCrashedMove(s, l, buildLimit, synthLimit);
    StuckIsEmpty(s, buildLimit, synthLimit);
    var lost := SomeIn(s, WaitSynth);
    assert s.jobs[l.i] in s.jobs;
    if lost {
      SumTight(s.jobs, SynthLost, CrashedSynth, l.i);
    }
    CrashedStep(s, l, lost);
    CrashedChanges(s.jobs, Apply(s, l).jobs, l.i, lost);
    SameQueues(s, Apply(s, l), l.i);
  }

  /** Changing one crashed job leaves the sums alone. */
  lemma CrashedChanges(js: seq<Job>, ks: seq<Job>, i: nat, lost: bool)
    requires i < |js| == |ks| && ks == js[i := ks[i]] && js[i].phase == ks[i].phase == Crashed
    requires BuildLost(ks[i]) == BuildLost(js[i]) && (lost ==> SynthLost(ks[i]) == SynthLost(js[i]))
    ensures Sum(ks, BuildLost) == Sum(js, BuildLost) && Sum(ks, InSynthQueue) == Sum(js, InSynthQueue)
    ensures lost ==> Sum(ks, SynthLost) == Sum(js, SynthLost)
  {
    SumUpdate(js, i, ks[i], BuildLost);
    SumUpdate(js, i, ks[i], InSynthQueue);
    SumUpdate(js, i, ks[i], SynthLost);
  }

  lemma SameQueues(s: State, t: State, i: nat)
    requires i < |s.jobs| == |t.jobs| && t.jobs == s.jobs[i := t.jobs[i]]
             && s.jobs[i].phase == t.jobs[i].phase == Crashed
    ensures SomeUnfinished(s) ==> SomeUnfinished(t)
    ensures OnlyWaiting(s) ==> OnlyWaiting(t)
    ensures SomeIn(t, WaitSynth) ==> SomeIn(s, WaitSynth)
    ensures SomeIn(t, WaitBuild) ==> SomeIn(s, WaitBuild)
  {
    if k :| 0 <= k < |s.jobs| && Unfinished(s.jobs[k]) {
      assert t.jobs[k] == s.jobs[k];
    }
    if k :| 0 <= k < |t.jobs| && t.jobs[k].phase == WaitSynth {
      assert s.jobs[k].phase == WaitSynth;
    }
    if k :| 0 <= k < |t.jobs| && t.jobs[k].phase == WaitBuild {
      assert s.jobs[k].phase == WaitBuild;
    }
    forall j | OnlyWaiting(s) && j in t.jobs && Unfinished(j)
      ensures Waiting(j)
    {
      var k :| 0 <= k < |t.jobs| && t.jobs[k] == j;
      assert s.jobs[k] in s.jobs;
    }
  }

  lemma {:induction false} StuckForEver(s: State, labels: seq<Label>, t: State, l: Label, buildLimit: nat,
                                        synthLimit: nat)
    requires Inv(s, buildLimit, synthLimit) && Stuck(s, buildLimit, synthLimit)
    requires Steps(s, labels, t) && Enabled(t, l)
    ensures t.jobs[l.i].phase == Crashed
    decreases |labels|
  {
    if labels == [] {
      StuckOnlyCrashedMove(s, l, buildLimit, synthLimit);
    } else {
      StuckStays(s, labels[0], buildLimit, synthLimit);
      StepKeepsInv(s, labels[0], buildLimit, synthLimit);
      StuckForEver(Apply(s, labels[0]), labels[1..], t, l, buildLimit, synthLimit);
    }
  }

  lemma AdvanceNow(s: State, l: Label)
    requires Enabled(s, l) && Unfinished(s.jobs[l.i])
    ensures CanAdvance(s)
  {
    assert Steps(s, [], s);
  }

  lemma AdvanceAfter(s: State, first: Label, l: Label)
    requires Enabled(s, first) && Enabled(Apply(s, first), l) && Unfinished(Apply(s, first).jobs[l.i])
    ensures CanAdvance(s)
  {
    assert [first][1..] == [];
    assert Steps(s, [first], Apply(s, first));
  }

  /** A line that ends synthesis for the tool. */
  function LastSynthesisLine(tool: Tool): string {
    match tool
    case Plain => ""
    case Vivado => "vivado -nojournal -nolog -mode batch -source run_impl.tcl"
    case Ise => "ngdbuild"
    case Quartus => "quartus_fit"
  }

  /** A job that waits for synthesis can go on unless every permit is lost for good. */
  lemma SynthQueueMoves(s: State, i: nat, buildLimit: nat, synthLimit: nat)
    requires Inv(s, buildLimit, synthLimit) && OnlyWaiting(s) && i < |s.jobs| && s.jobs[i].phase == WaitSynth
    requires Sum(s.jobs, SynthLost) != synthLimit
    ensures CanAdvance(s)
  {
    PermitsWhenWaiting(s, buildLimit, synthLimit);
    SumMonotone(s.jobs, SynthLost, CrashedSynth);
    if s.synth > 0 {
      AdvanceNow(s, AcquireSynth(i));
    } else {
      var k := SumSlack(s.jobs, SynthLost, CrashedSynth);
      assert s.jobs[k] in s.jobs;
      LineFrees(s, k, i);
    }
  }

  lemma LineFrees(s: State, k: nat, i: nat)
    requires k < |s.jobs| && i < |s.jobs| && SynthLost(s.jobs[k]) < CrashedSynth(s.jobs[k]) && JobOk(s.jobs[k])
    requires s.jobs[i].phase == WaitSynth
    ensures CanAdvance(s)
  {
    AdvanceAfter(s, LogLine(k, LastSynthesisLine(s.jobs[k].tool)), AcquireSynth(i));
  }

  lemma BusyJobMoves(s: State, i: nat)
    requires i < |s.jobs| && Unfinished(s.jobs[i]) && !Waiting(s.jobs[i]) && JobOk(s.jobs[i])
    ensures CanAdvance(s)
  {
    match s.jobs[i].phase
    case Idle => AdvanceNow(s, Begin(i));
    case Starting => AdvanceNow(s, Spawn(i));
    case Running => AdvanceNow(s, if s.jobs[i].readers > 0 then StreamEnds(i) else Gathered(i));
    case Packing => AdvanceNow(s, Packed(i));
  }

  lemma NotStuckMoves(s: State, buildLimit: nat, synthLimit: nat)
    requires Inv(s, buildLimit, synthLimit) && SomeUnfinished(s) && !Stuck(s, buildLimit, synthLimit)
    ensures CanAdvance(s)
  {
    if j :| j in s.jobs && Unfinished(j) && !Waiting(j) {
      var i :| 0 <= i < |s.jobs| && s.jobs[i] == j;
      BusyJobMoves(s, i);
    } else if SomeIn(s, WaitSynth) && Sum(s.jobs, SynthLost) != synthLimit {
      var i :| 0 <= i < |s.jobs| && s.jobs[i].phase == WaitSynth;
      SynthQueueMoves(s, i, buildLimit, synthLimit);
    } else {
      var i :| 0 <= i < |s.jobs| && s.jobs[i].phase == WaitBuild;
      PermitsWhenWaiting(s, buildLimit, synthLimit);
      AdvanceNow(s, AcquireBuild(i));
    }
  }

  /** The exact condition for deadlock: all remaining jobs wait, and crashed jobs have taken every permit that the
      queues need out of circulation for good. */
  lemma DeadlockIff(s: State, buildLimit: nat, synthLimit: nat)
    requires Inv(s, buildLimit, synthLimit)
    ensures Deadlocked(s) <==> Stuck(s, buildLimit, synthLimit)
  {
    if Stuck(s, buildLimit, synthLimit) {
      forall labels, t, l | Steps(s, labels, t) && Enabled(t, l)
        ensures !Unfinished(t.jobs[l.i])
      {
        StuckForEver(s, labels, t, l, buildLimit, synthLimit);
      }
    } else if SomeUnfinished(s) {
      NotStuckMoves(s, buildLimit, synthLimit);
    }
  }

  ghost predicate NoneCrashed(s: State) { forall j | j in s.jobs :: j.phase != Crashed }

  /** While no coroutine has raised, a state with work left is never deadlocked, for any two limits
      that are at least one. */
  lemma NoDeadlock(s: State, buildLimit: nat, synthLimit: nat)
    requires Inv(s, buildLimit, synthLimit) && NoneCrashed(s)
    requires buildLimit >= 1 && synthLimit >= 1
    ensures !Deadlocked(s)
  {
    DeadlockIff(s, buildLimit, synthLimit);
    SumBounds(s.jobs, SynthLost, 0, 0);
    SumBounds(s.jobs, BuildLost, 0, 0);
    if Stuck(s, buildLimit, synthLimit) {
      SumBounds(s.jobs, InSynthQueue, 0, 0);
      assert false;
    }
  }

  // ---------------------------------------------------------------- whole runs

  lemma StepCrashesNone(s: State, l: Label)
    requires Enabled(s, l) && !Raises(l) && NoneCrashed(s)
    ensures NoneCrashed(Apply(s, l))
  {
  }

  lemma {:induction false} NoRaiseNoCrash(s: State, labels: seq<Label>, t: State)
    requires Steps(s, labels, t) && NoneCrashed(s) && forall l | l in labels :: !Raises(l)
    ensures NoneCrashed(t)
    decreases |labels|
  {
    if labels != [] {
      assert labels[0] in labels;
      StepCrashesNone(s, labels[0]);
      NoRaiseNoCrash(Apply(s, labels[0]), labels[1..], t);
    }
  }

  /** A run that can go no further, and in which nothing raised, has finished every job, has taken and
      returned each permit of each job exactly once, and has both semaphores back at their limits. */
  lemma CompletedRun(s0: State, labels: seq<Label>, s: State, buildLimit: nat, synthLimit: nat)
    requires IsRun(s0, labels, s, buildLimit, synthLimit)
    requires buildLimit >= 1 && synthLimit >= 1
    requires forall l | l in labels :: !Raises(l)
    requires forall l :: !Enabled(s, l)
    ensures s.build == buildLimit && s.synth == synthLimit
    ensures forall j | j in s.jobs :: j.phase == Finished && AllReturned(j)
  {
    RunKeepsInv(s0, labels, s, buildLimit, synthLimit);
    NoRaiseNoCrash(s0, labels, s);
    NoDeadlock(s, buildLimit, synthLimit);
    StandstillNeverMoves(s);
    forall j | j in s.jobs
      ensures j.phase == Finished && JobOk(j)
    {
      var i :| 0 <= i < |s.jobs| && s.jobs[i] == j;
    }
    SumBounds(s.jobs, BuildHeld, 0, 0);
    SumBounds(s.jobs, SynthHeld, 0, 0);
  }

  lemma StandstillNeverMoves(s: State)
    requires forall l :: !Enabled(s, l)
    ensures !CanAdvance(s)
  {
    forall labels, t | Steps(s, labels, t)
      ensures t == s
    {
      StandstillStays(s, labels, t);
    }
  }

  lemma StandstillStays(s: State, labels: seq<Label>, t: State)
    requires (forall l :: !Enabled(s, l)) && Steps(s, labels, t)
    ensures t == s
  {
  }

  function Rank(j: Job): int {
    match j.phase
    case Idle => 8 case WaitBuild => 7 case WaitSynth => 6 case Starting => 5 case Running => 2 + j.readers
    case Packing => 1 case Finished => 0 case Crashed => j.readers
  }

  function Advances(labels: seq<Label>): nat {
    if labels == [] then 0 else (if labels[0].LogLine? then 0 else 1) + Advances(labels[1..])
  }

  /** A step takes its job further unless it is only a log line. */
  lemma JobAdvances(s: State, l: Label)
    requires Enabled(s, l) && JobOk(s.jobs[l.i])
    ensures Rank(Apply(s, l).jobs[l.i]) <= Rank(s.jobs[l.i]) - if l.LogLine? then 0 else 1
  {
  }

  lemma StepRank(s: State, l: Label)
    requires Enabled(s, l) && JobOk(s.jobs[l.i])
    ensures Sum(Apply(s, l).jobs, Rank) <= Sum(s.jobs, Rank) - if l.LogLine? then 0 else 1
  {
    JobSteps(s, l);
    JobAdvances(s, l);
    var j := Apply(s, l).jobs[l.i];
    SumUpdate(s.jobs, l.i, j, Rank);
  }

  lemma {:induction false} RankBudget(s: State, labels: seq<Label>, t: State, buildLimit: nat, synthLimit: nat)
    requires Inv(s, buildLimit, synthLimit) && Steps(s, labels, t)
    ensures Advances(labels) + Sum(t.jobs, Rank) <= Sum(s.jobs, Rank)
    decreases |labels|
  {
    if labels != [] {
      assert s.jobs[labels[0].i] in s.jobs;
      StepRank(s, labels[0]);
      StepKeepsInv(s, labels[0], buildLimit, synthLimit);
      RankBudget(Apply(s, labels[0]), labels[1..], t, buildLimit, synthLimit);
    }
  }

  lemma {:induction false} AdvancesCount(labels: seq<Label>, steps: set<nat>)
    requires forall k: nat :: k in steps <==> k < |labels| && !labels[k].LogLine?
    ensures |steps| == Advances(labels)
    decreases |labels|
  {
    if labels == [] {
      assert steps == {};
    } else {
      var n := |labels| - 1;
      AdvancesCount(labels[..n], steps - {n});
      AdvancesLast(labels, n);
      if labels[n].LogLine? {
        assert steps - {n} == steps;
      }
    }
  }

  lemma {:induction false} AdvancesLast(labels: seq<Label>, n: nat)
    requires |labels| == n + 1
    ensures Advances(labels) == Advances(labels[..n]) + if labels[n].LogLine? then 0 else 1
    decreases n
  {
    if n == 0 {
      assert labels[1..] == [];
    } else {
      AdvancesLast(labels[1..], n - 1);
      assert labels[1..][..n - 1] == labels[..n][1..];
    }
  }

  /** Log lines aside, no run takes more than eight steps per job, however the jobs interleave. */
  lemma RunsAreShort(s0: State, labels: seq<Label>, s: State, buildLimit: nat, synthLimit: nat)
    requires IsRun(s0, labels, s, buildLimit, synthLimit)
    ensures |set k: nat | k < |labels| && !labels[k].LogLine?| <= 8 * |s0.jobs|
  {
    AdvancesCount(labels, set k: nat | k < |labels| && !labels[k].LogLine?);
    InitialInv(s0, buildLimit, synthLimit);
    RankBudget(s0, labels, s, buildLimit, synthLimit);
    SumBounds(s0.jobs, Rank, 8, 8);
    RankIsNonNegative(s.jobs);
  }

  lemma RankIsNonNegative(jobs: seq<Job>)
    ensures Sum(jobs, Rank) >= 0
  {
    SumNonNegative(jobs, Rank);
  }

  // ---------------------------------------------------------------- the limits, over the events of a run

  /** A line of the log that shows that synthesis is over. */
  ghost predicate SynthesisOver(tool: Tool, line: string) {
    || (tool == Vivado && line == "vivado -nojournal -nolog -mode batch -source run_impl.tcl")
    || (tool == Ise && "ngdbuild" <= line)
    || (tool == Quartus && "quartus_fit" <= line)
  }

  /** Job i synthesises from when it gets its permit until its log shows that synthesis is over, or until both of its
      streams have been read to the end. */
  ghost predicate SynthesisNext(on: bool, tool: Tool, i: nat, l: Label) {
    if l == AcquireSynth(i) then true
    else if l == Gathered(i) || (l.LogLine? && l.i == i && SynthesisOver(tool, l.line)) then false
    else on
  }

  ghost predicate Synthesises(on: bool, tool: Tool, i: nat, labels: seq<Label>)
    decreases |labels|
  {
    if labels == [] then on else Synthesises(SynthesisNext(on, tool, i, labels[0]), tool, i, labels[1..])
  }

  /** It builds from when it gets its other permit until both of its streams have been read to the end. */
  ghost predicate Builds(on: bool, i: nat, labels: seq<Label>)
    decreases |labels|
  {
    if labels == [] then on
    else Builds(labels[0] == AcquireBuild(i) || (on && labels[0] != Gathered(i)), i, labels[1..])
  }

  /** Any other line changes nothing, and such a line is the only one that gives a permit back. */
  lemma OtherLinesChangeNothing(s: State, i: nat, line: string)
    requires Enabled(s, LogLine(i, line)) && JobOk(s.jobs[i])
    ensures Apply(s, LogLine(i, line)) != s <==> s.jobs[i].synthRef && SynthesisOver(s.jobs[i].tool, line)
    ensures Apply(s, LogLine(i, line)).build == s.build
    ensures Apply(s, LogLine(i, line)).synth ==
            s.synth + if s.jobs[i].synthRef && SynthesisOver(s.jobs[i].tool, line) then 1 else 0
  {
    LineEnds(s.jobs[i].tool, line);
  }

  predicate Same(tool: Tool, s: State, i: nat) { i < |s.jobs| && s.jobs[i].tool == tool }

  lemma LineSynthesis(s: State, l: Label, j: Job)
    requires l.LogLine? && Enabled(s, l) && j == s.jobs[l.i] && JobOk(j)
    ensures var k := Apply(s, l).jobs[l.i];
            k.tool == j.tool && SynthHeld(k) == if SynthesisOver(j.tool, l.line) then 0 else SynthHeld(j)
  {
    LineEnds(j.tool, l.line);
    if SynthesisOver(j.tool, l.line) {
      DoneReturns(s, l.i, j);
    }
  }

  lemma DoneReturns(s: State, i: nat, j: Job)
    requires i < |s.jobs| && j == s.jobs[i] && JobOk(j) && j.synthTaken == 1
    ensures var k := SynthDone(s, i).jobs[i]; k.tool == j.tool && SynthHeld(k) == 0
  {
  }

  /** The scanners call synth_done on just these lines. */
  lemma LineEnds(tool: Tool, line: string)
    ensures EndsSynthesis(tool, line) <==> SynthesisOver(tool, line)
  {
  }

  lemma OwnSynthesis(s: State, l: Label, j: Job)
    requires !l.LogLine? && Enabled(s, l) && j == s.jobs[l.i] && JobOk(j)
    ensures var k := Apply(s, l).jobs[l.i];
            k.tool == j.tool && SynthHeld(k) == if l.AcquireSynth? then 1 else if l.Gathered? then 0 else SynthHeld(j)
  {
    if l.Gathered? {
      GatheredReturns(s, l.i, j);
    } else {
      OneJobStep(s, l, j);
    }
  }

  lemma GatheredReturns(s: State, i: nat, j: Job)
    requires Enabled(s, Gathered(i)) && j == s.jobs[i] && JobOk(j)
    ensures var k := Apply(s, Gathered(i)).jobs[i]; k.tool == j.tool && SynthHeld(k) == 0 && BuildHeld(k) == 0
  {
  }

  lemma OneJobStep(s: State, l: Label, j: Job)
    requires !l.LogLine? && !l.Gathered? && Enabled(s, l) && j == s.jobs[l.i] && JobOk(j)
    ensures var k := Apply(s, l).jobs[l.i];
            k.tool == j.tool && SynthHeld(k) == if l.AcquireSynth? then 1 else SynthHeld(j)
  {
    match l
    case Begin(i) =>
    case AcquireBuild(i) =>
    case AcquireSynth(i) =>
    case Spawn(i) =>
    case SpawnFails(i) =>
    case StreamEnds(i) =>
    case ReaderRaises(i) =>
    case Packed(i) =>
    case PackingFails(i) =>
  }

  lemma StepSynthesis(s: State, l: Label, tool: Tool, i: nat, on: bool)
    requires Enabled(s, l) && Same(tool, s, i) && JobOk(s.jobs[i]) && on == (SynthHeld(s.jobs[i]) == 1)
    ensures var t := Apply(s, l);
            Same(tool, t, i) && SynthesisNext(on, tool, i, l) == (SynthHeld(t.jobs[i]) == 1)
  {
    if i != l.i {
      OthersStay(s, l, i);
    } else if l.LogLine? {
      LineSynthesis(s, l, s.jobs[i]);
    } else {
      OwnSynthesis(s, l, s.jobs[i]);
    }
  }

  lemma OthersStay(s: State, l: Label, i: nat)
    requires Enabled(s, l) && i < |s.jobs| && i != l.i
    ensures |Apply(s, l).jobs| == |s.jobs| && Apply(s, l).jobs[i] == s.jobs[i]
  {
  }

  lemma {:induction false} RunSynthesis(s: State, labels: seq<Label>, t: State, tool: Tool, i: nat, on: bool,
                                        buildLimit: nat,
                                        synthLimit: nat)
    requires Inv(s, buildLimit, synthLimit) && Steps(s, labels, t) && Same(tool, s, i)
    requires on == (SynthHeld(s.jobs[i]) == 1)
    ensures Same(tool, t, i) && Synthesises(on, tool, i, labels) == (SynthHeld(t.jobs[i]) == 1)
    decreases |labels|
  {
    if labels != [] {
      var l := labels[0];
      assert s.jobs[i] in s.jobs;
      StepSynthesis(s, l, tool, i, on);
      StepKeepsInv(s, l, buildLimit, synthLimit);
      RunSynthesis(Apply(s, l), labels[1..], t, tool, i, SynthesisNext(on, tool, i, l), buildLimit, synthLimit);
    }
  }

  lemma StepBuild(s: State, l: Label, i: nat, on: bool)
    requires Enabled(s, l) && i < |s.jobs| && JobOk(s.jobs[i]) && on == (BuildHeld(s.jobs[i]) == 1)
    ensures var t := Apply(s, l);
            && i < |t.jobs| && (l == AcquireBuild(i) || (on && l != Gathered(i))) == (BuildHeld(t.jobs[i]) == 1)
  {
  }

  lemma {:induction false} RunBuild(s: State, labels: seq<Label>, t: State, i: nat, on: bool, buildLimit: nat,
                                    synthLimit: nat)
    requires Inv(s, buildLimit, synthLimit) && Steps(s, labels, t) && i < |s.jobs|
    requires on == (BuildHeld(s.jobs[i]) == 1)
    ensures i < |t.jobs| && Builds(on, i, labels) == (BuildHeld(t.jobs[i]) == 1)
    decreases |labels|
  {
    if labels != [] {
      var l := labels[0];
      assert s.jobs[i] in s.jobs;
      StepBuild(s, l, i, on);
      StepKeepsInv(s, l, buildLimit, synthLimit);
      RunBuild(Apply(s, l), labels[1..], t, i, l == AcquireBuild(i)
          || (on && l != Gathered(i)), buildLimit, synthLimit);
    }
  }

  /** The jobs that build and those that synthesise after these events. */
  ghost function Building(s0: State, labels: seq<Label>): set<nat> {
    set i: nat | i < |s0.jobs| && Builds(false, i, labels)
  }

  ghost function Synthesising(s0: State, labels: seq<Label>): set<nat> {
    set i: nat | i < |s0.jobs| && Synthesises(false, s0.jobs[i].tool, i, labels)
  }

  lemma HeldOnce(j: Job)
    requires JobOk(j)
    ensures (BuildHeld(j) == 0 || BuildHeld(j) == 1) && (SynthHeld(j) == 0 || SynthHeld(j) == 1)
  {
  }

  lemma AllHeldOnce(s: State, buildLimit: nat, synthLimit: nat)
    requires Inv(s, buildLimit, synthLimit)
    ensures forall j | j in s.jobs :: BuildHeld(j) == 0 || BuildHeld(j) == 1
    ensures forall j | j in s.jobs :: SynthHeld(j) == 0 || SynthHeld(j) == 1
  {
    forall j | j in s.jobs
      ensures (BuildHeld(j) == 0 || BuildHeld(j) == 1) && (SynthHeld(j) == 0 || SynthHeld(j) == 1)
    {
      HeldOnce(j);
    }
  }

  lemma BuildingCount(s0: State, labels: seq<Label>, s: State, buildLimit: nat, synthLimit: nat)
    requires Inv(s0, buildLimit, synthLimit) && Steps(s0, labels, s) && |s.jobs| == |s0.jobs|
    requires forall j | j in s.jobs :: BuildHeld(j) == 0 || BuildHeld(j) == 1
    requires forall j | j in s0.jobs :: BuildHeld(j) == 0
    ensures |Building(s0, labels)| == Sum(s.jobs, BuildHeld)
  {
    forall i: nat | i < |s0.jobs|
      ensures Builds(false, i, labels) == (BuildHeld(s.jobs[i]) == 1)
    {
      assert s0.jobs[i] in s0.jobs;
      RunBuild(s0, labels, s, i, false, buildLimit, synthLimit);
    }
    SumCounts(s.jobs, BuildHeld, Building(s0, labels));
  }

  lemma SynthesisingCount(s0: State, labels: seq<Label>, s: State, buildLimit: nat, synthLimit: nat)
    requires Inv(s0, buildLimit, synthLimit) && Steps(s0, labels, s) && |s.jobs| == |s0.jobs|
    requires forall j | j in s.jobs :: SynthHeld(j) == 0 || SynthHeld(j) == 1
    requires forall j | j in s0.jobs :: SynthHeld(j) == 0
    ensures |Synthesising(s0, labels)| == Sum(s.jobs, SynthHeld)
  {
    forall i: nat | i < |s0.jobs|
      ensures Synthesises(false, s0.jobs[i].tool, i, labels) == (SynthHeld(s.jobs[i]) == 1)
    {
      assert s0.jobs[i] in s0.jobs;
      RunSynthesis(s0, labels, s, s0.jobs[i].tool, i, false, buildLimit, synthLimit);
    }
    SumCounts(s.jobs, SynthHeld, Synthesising(s0, labels));
  }

  /** At every moment of every run the jobs that build and the jobs that synthesise, as the events show it, are
      exactly as many as permits are missing; so there are never more of them than the two limits allow. */
  lemma LimitsRespected(s0: State, labels: seq<Label>, s: State, buildLimit: nat, synthLimit: nat)
    requires IsRun(s0, labels, s, buildLimit, synthLimit)
    ensures |Building(s0, labels)| + s.build == buildLimit
    ensures |Synthesising(s0, labels)| + s.synth == synthLimit
  {
    InitialInv(s0, buildLimit, synthLimit);
    RunKeepsInv(s0, labels, s, buildLimit, synthLimit);
    AllHeldOnce(s, buildLimit, synthLimit);
    BuildingCount(s0, labels, s, buildLimit, synthLimit);
    SynthesisingCount(s0, labels, s, buildLimit, synthLimit);
  }

  // ---------------------------------------------------------------- runs with an exception

  const IDLE := Job(Vivado, Idle, 0, false, false, 0, 0, 0, 0)
  const WAITING := IDLE.(phase := WaitBuild, buildRef := true, synthRef := true)
  const QUEUED := WAITING.(phase := WaitSynth, buildTaken := 1)
  const STARTING := QUEUED.(phase := Starting, synthTaken := 1)
  const CRASHED := STARTING.(phase := Crashed, readers := 1)

  /** A run and one more step. */
  lemma {:induction false} Extend(s0: State, labels: seq<Label>, s: State, l: Label)
    returns (labels': seq<Label>, t: State)
    requires Steps(s0, labels, s) && Enabled(s, l)
    ensures t == Apply(s, l) && labels' == labels + [l] && Steps(s0, labels', t)
    decreases |labels|
  {
    t, labels' := Apply(s, l), labels + [l];
    if labels == [] {
      assert [l][1..] == [];
    } else {
      var rest, t' := Extend(Apply(s0, labels[0]), labels[1..], s, l);
      assert labels'[1..] == rest;
    }
  }

  /** Some run leads to s. */
  ghost predicate Reached(s: State, buildLimit: nat, synthLimit: nat) {
    exists s0, labels :: IsRun(s0, labels, s, buildLimit, synthLimit)
  }

  lemma Reach(s: State, l: Label, buildLimit: nat, synthLimit: nat) returns (t: State)
    requires Reached(s, buildLimit, synthLimit) && Enabled(s, l)
    ensures t == Apply(s, l) && Reached(t, buildLimit, synthLimit)
  {
    var s0, labels :| IsRun(s0, labels, s, buildLimit, synthLimit);
    var labels';
    labels', t := Extend(s0, labels, s, l);
    assert IsRun(s0, labels', t, buildLimit, synthLimit);
  }

  lemma ReachedInv(s: State, buildLimit: nat, synthLimit: nat)
    requires Reached(s, buildLimit, synthLimit)
    ensures Inv(s, buildLimit, synthLimit)
  {
    var s0, labels :| IsRun(s0, labels, s, buildLimit, synthLimit);
    RunKeepsInv(s0, labels, s, buildLimit, synthLimit);
  }

  lemma BothBegin(b: nat)
    ensures Reached(State([WAITING, WAITING], b, 1), b, 1)
  {
    var s := State([IDLE, IDLE], b, 1);
    assert IsRun(s, [], s, b, 1);
    s := Reach(s, Begin(0), b, 1);
    s := Reach(s, Begin(1), b, 1);
    assert s.jobs == [WAITING, WAITING];
  }

  lemma FirstBuilds(b: nat, w: Job)
    requires w == WAITING
    ensures Reached(State([w.(phase := WaitSynth, buildTaken := 1), w], b, 1), b + 1, 1)
  {
    BothBegin(b + 1);
    FirstTakes(b, w);
    var s := Reach(State([w, w], b + 1, 1), AcquireBuild(0), b + 1, 1);
  }

  lemma FirstTakes(b: nat, w: Job)
    requires w == WAITING
    ensures var s := State([w, w], b + 1, 1);
            && Enabled(s, AcquireBuild(0))
            && Apply(s, AcquireBuild(0)) == State([w.(phase := WaitSynth, buildTaken := 1), w], b, 1)
  {
    var s := State([w, w], b + 1, 1);
    assert Apply(s, AcquireBuild(0)).jobs == [w.(phase := WaitSynth, buildTaken := 1), w];
  }

  lemma FirstStarts(b: nat)
    ensures Reached(State([STARTING, WAITING], b, 0), b + 1, 1)
  {
    FirstBuilds(b, WAITING);
    var s := Reach(State([QUEUED, WAITING], b, 1), AcquireSynth(0), b + 1, 1);
    assert s.jobs == [STARTING, WAITING];
  }

  /** One of the readers of the first job raises. */
  lemma FirstCrashes(b: nat)
    ensures Reached(State([CRASHED, WAITING], b, 0), b + 1, 1)
  {
    FirstStarts(b);
    var s := Reach(State([STARTING, WAITING], b, 0), Spawn(0), b + 1, 1);
    s := Reach(s, ReaderRaises(0), b + 1, 1);
    assert s.jobs == [CRASHED, WAITING];
  }

  /** A reader can also raise after the other one has come to its end. */
  lemma LastReaderRaises(b: nat) returns (s: State)
    ensures Reached(s, b + 1, 1) && s.jobs == [CRASHED.(readers := 0), WAITING] && s.build == b && s.synth == 0
  {
    s := FirstStreamEnds(b);
    s := Reach(s, ReaderRaises(0), b + 1, 1);
    assert s.jobs == [CRASHED.(readers := 0), WAITING];
  }

  lemma FirstStreamEnds(b: nat) returns (s: State)
    ensures Reached(s, b + 1, 1) && s.build == b && s.synth == 0
    ensures s.jobs == [STARTING.(phase := Running, readers := 1), WAITING]
  {
    FirstStarts(b);
    s := Reach(State([STARTING, WAITING], b, 0), Spawn(0), b + 1, 1);
    assert s.jobs == [STARTING.(phase := Running, readers := 2), WAITING];
    s := Reach(s, StreamEnds(0), b + 1, 1);
    assert s.jobs == [STARTING.(phase := Running, readers := 1), WAITING];
  }

  lemma SecondQueues()
    ensures Reached(State([CRASHED, QUEUED], 0, 0), 2, 1)
  {
    FirstCrashes(1);
    var s := Reach(State([CRASHED, WAITING], 1, 0), AcquireBuild(1), 2, 1);
    assert s.jobs == [CRASHED, QUEUED];
  }

  /** The other reader of the first job ends. */
  lemma OtherReaderEnds(s: State, a: Job, b: Job)
    requires Reached(s, 2, 1) && s.jobs == [a, b] && a.readers == 1
    ensures Reached(s.(jobs := [a.(readers := 0), b]), 2, 1)
  {
    var t := Reach(s, StreamEnds(0), 2, 1);
    assert t.jobs == [a.(readers := 0), b];
  }

  /** The sums that decide about deadlock, for two jobs. */
  lemma PairSums(s: State, a: Job, b: Job)
    requires s.jobs == [a, b]
    ensures Sum(s.jobs, BuildLost) == BuildLost(a) + BuildLost(b)
            && Sum(s.jobs, SynthLost) == SynthLost(a) + SynthLost(b)
    ensures Sum(s.jobs, InSynthQueue) == InSynthQueue(a) + InSynthQueue(b)
    ensures forall p :: SomeIn(s, p) <==> a.phase == p || b.phase == p
  {
    SumPair(a, b, BuildLost);
    SumPair(a, b, SynthLost);
    SumPair(a, b, InSynthQueue);
    assert s.jobs[0] == a && s.jobs[1] == b;
  }

  lemma BuildLostForGood(s: State, a: Job, b: Job)
    requires Reached(s, 1, 1) && s.jobs == [a, b] && a.phase == Crashed && BuildHeld(a) == 1 && b.phase == WaitBuild
    ensures Deadlocked(s)
  {
    ReachedInv(s, 1, 1);
    PairSums(s, a, b);
    assert Unfinished(s.jobs[1]);
    DeadlockIff(s, 1, 1);
  }

  lemma SynthNotYetLost(s: State, a: Job, b: Job)
    requires Reached(s, 2, 1) && s.jobs == [a, b]
    requires a.phase == Crashed && a.tool == Vivado && a.readers > 0 && b.phase == WaitSynth
    ensures !Deadlocked(s)
  {
    ReachedInv(s, 2, 1);
    PairSums(s, a, b);
    SynthQueueMoves(s, 1, 2, 1);
  }

  lemma SynthLostForGood(s: State, a: Job, b: Job)
    requires Reached(s, 2, 1) && s.jobs == [a, b]
    requires a.phase == Crashed && a.readers == 0 && SynthHeld(a) == 1 && b.phase == WaitSynth
    ensures Deadlocked(s)
  {
    ReachedInv(s, 2, 1);
    PairSums(s, a, b);
    assert Unfinished(s.jobs[1]);
    DeadlockIff(s, 2, 1);
  }

  lemma WithoutBuildPermit() returns (s: State, a: Job, b: Job)
    ensures Reached(s, 1, 1) && s.jobs == [a, b] && a.phase == Crashed && BuildHeld(a) == 1 && b.phase == WaitBuild
  {
    FirstCrashes(0);
    s, a, b := State([CRASHED, WAITING], 0, 0), CRASHED, WAITING;
  }

  lemma WithOneReader() returns (s: State, a: Job, b: Job)
    ensures Reached(s, 2, 1) && s.jobs == [a, b] && a == CRASHED && b.phase == WaitSynth
  {
    SecondQueues();
    s, a, b := State([CRASHED, QUEUED], 0, 0), CRASHED, QUEUED;
  }

  /** An exception does break it: with one build permit, a job one of whose readers raises leaves the other job waiting
      for ever, although its other reader goes on. */
  lemma RaiseCanDeadlock() returns (s: State)
    ensures Reached(s, 1, 1) && Deadlocked(s)
  {
    var a, b;
    s, a, b := WithoutBuildPermit();
    BuildLostForGood(s, a, b);
  }

  /** With two build permits the other job waits for synthesis only, and a line that the surviving reader sees can still
      let it go on; once that reader has ended too, nothing can. */
  lemma LateLineCanFree() returns (s: State, a: Job, b: Job)
    ensures Reached(s, 2, 1) && s.jobs == [a, b] && a.phase == Crashed && a.readers == 1 && b.phase == WaitSynth
    ensures !Deadlocked(s)
    ensures var ended := s.(jobs := [a.(readers := 0), b]); Reached(ended, 2, 1) && Deadlocked(ended)
  {
    s, a, b := WithOneReader();
    SynthNotYetLost(s, a, b);
    OtherReaderEnds(s, a, b);
    SynthLostForGood(s.(jobs := [a.(readers := 0), b]), a.(readers := 0), b);
  }
}
