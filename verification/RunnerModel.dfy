/** The runner as a value: what each step of its initialisation does to it (src/cairo_runner.c). */
module RunnerModel {
  import opened MemoryModel
  import opened Relocatables
  import opened Words

  datatype RunContext = RunContext(pc: Relocatable, ap: Relocatable, fp: Relocatable)

  datatype RunnerState = RunnerState(
    program: seq<MaybeRelocatable>,
    main: uint32,
    memory: MemoryState,
    context: RunContext,
    programBase: Relocatable,
    executionBase: Relocatable,
    initialPc: Relocatable,
    initialFp: Relocatable,
    finalPc: Relocatable)

  const ORIGIN := Relocatable(0, 0)

  function NewRunner(program: seq<MaybeRelocatable>, main: uint32): RunnerState {
    RunnerState(program, main, EMPTY_MEMORY, RunContext(ORIGIN, ORIGIN, ORIGIN), ORIGIN, ORIGIN, ORIGIN, ORIGIN, ORIGIN)
  }

  function InitializeSegments(r: RunnerState): RunnerState {
    var (first, programBase) := AddSegment(r.memory);
    var (second, executionBase) := AddSegment(first);
    r.(memory := second, programBase := programBase, executionBase := executionBase)
  }

  /** The flag tells whether both loads succeeded; the runner does not look at it. */
  function InitializeState(schedule: AddSchedule, r: RunnerState, entrypoint: uint32, stack: seq<MaybeRelocatable>)
    : (RunnerState, bool)
  {
    var (loaded, programLoad) := LoadData(schedule, r.memory, r.programBase, r.program);
    var (ready, stackLoad) := LoadData(schedule, loaded, r.executionBase, stack);
    (r.(memory := ready, initialPc := AddressAt(r.programBase, entrypoint)), programLoad.Ok? && stackLoad.Ok?)
  }

  function InitializeFunctionEntrypoint(
    schedule: AddSchedule, r: RunnerState, entrypoint: uint32, stack: seq<MaybeRelocatable>, returnFp: Relocatable)
    : (RunnerState, Relocatable, bool)
  {
    var (memory, end) := AddSegment(r.memory);
    var frame := stack + [Pointer(returnFp), Pointer(end)];
    var initialFp := Relocatable(r.executionBase.segmentIndex, Wrap32(|frame|));
    var (ready, loaded) :=
      InitializeState(schedule, r.(memory := memory, initialFp := initialFp), entrypoint, frame);
    (ready.(finalPc := end), end, loaded)
  }

  function InitializeMainEntrypoint(schedule: AddSchedule, r: RunnerState): (RunnerState, Relocatable, bool) {
    var (memory, returnFp) := AddSegment(r.memory);
    InitializeFunctionEntrypoint(schedule, r.(memory := memory), r.main, [], returnFp)
  }

  function InitializeVm(r: RunnerState): RunnerState {
    r.(context := RunContext(r.initialPc, r.initialFp, r.initialFp))
  }

  function Initialize(schedule: AddSchedule, r: RunnerState): (RunnerState, Relocatable, bool) {
    var (entered, end, loaded) := InitializeMainEntrypoint(schedule, InitializeSegments(r));
    (InitializeVm(entered), end, loaded)
  }

  /** Each state of the sequence is the previous one after one more initialisation. */
  ghost predicate IsRun(schedule: AddSchedule, states: seq<RunnerState>) {
    forall i :: 0 < i < |states| ==> states[i] == Initialize(schedule, states[i - 1]).0
  }
}
