/**
 The catalogue over whole runs. The lock lets one operation at a time change the memory, write the temporary
 file and rename it. Uploads store their blob outside the lock and take it to record the size; any number of uploads,
 of different courses, can be between the two. The process can die and be restarted between any two steps.
 */
module CatalogueRuns {
  import opened Bytes
  import opened Catalogue
  import opened Maps
  import ObjectStore

  datatype Op = AllocOp(draft: Draft) | CompleteOp(id: u64, ok: bool) | SizeOp(id: u64, size: u32)

  function Apply(m: Mem, op: Op): Mem {
    match op
    case AllocOp(d) => Allocated(m, d)
    case CompleteOp(id, ok) => Completed(m, id, ok)
    case SizeOp(id, size) => Resized(m, id, size)
  }

  /** Whether the operation writes the catalogue. */
  predicate Persists(m: Mem, op: Op) {
    op.AllocOp? || op.id in m.byID
  }

  /** The id an operation is about to return to its caller. */
  function Result(m: Mem, op: Op): Option<u64> {
    if op.AllocOp? then Some(m.nextID) else None
  }

  /** Content of the temporary file; a death while it is written leaves it unreadable. */
  datatype Temp = NoTemp | Torn | Whole(file: Saved)

  datatype Stage =
    | Idle
    | Changed(before: Mem, result: Option<u64>)      // memory changed, nothing written
    | Written(before: Mem, result: Option<u64>)      // temporary file complete
    | Renamed(result: Option<u64>)                   // catalogue replaced, not yet returned
  {
    /** The result still to be returned by the operation under way. */
    function Pending(): Option<u64> {
      if Changed? || Written? || Renamed? then result else None
    }
  }

  datatype System = System(
    mem: Mem,
    catalogue: Option<Saved>,
    temp: Temp,
    blobs: map<u64, Blob>,
    uploads: map<u64, u32>,    // uploads whose blob is stored and whose size, given here, is not yet recorded
    stage: Stage,
    returned: seq<u64>)        // every id alloc has returned, oldest first

  const INITIAL := System(FRESH, None, NoTemp, map[], map[], Idle, [])

  datatype Step =
    | Invoke(op: Op)                  // alloc or complete
    | StoreBlob(id: u64, data: Blob)  // first half of a PUT
    | RecordSize(id: u64)             // second half of a PUT
    | WriteTemp(file: Saved)
    | Rename
    | Finish
    | CrashAndLoad(torn: bool)        // the process dies; a new one loads the catalogue

  ghost predicate Enabled(s: System, step: Step) {
    match step
    case Invoke(op) => s.stage.Idle? && !op.SizeOp?
    case StoreBlob(id, data) => id !in s.uploads && |data| <= ObjectStore.UPLOAD_CAP
    case RecordSize(id) => s.stage.Idle? && id in s.uploads
    case WriteTemp(file) => s.stage.Changed? && IsSaved(s.mem, file)
    case Rename => s.stage.Written? && s.temp.Whole?
    case Finish => s.stage.Renamed?
    case CrashAndLoad(_) => true
  }

  function Begun(s: System, op: Op): System {
    s.(mem := Apply(s.mem, op), stage := if Persists(s.mem, op) then Changed(s.mem, Result(s.mem, op)) else Idle)
  }

  ghost function Next(s: System, step: Step): System
    requires Enabled(s, step)
  {
    match step
    case Invoke(op) => Begun(s, op)
    case StoreBlob(id, data) => s.(blobs := s.blobs[id := data], uploads := s.uploads[id := |data| % 0x1_0000_0000])
    case RecordSize(id) => Begun(s, SizeOp(id, s.uploads[id])).(uploads := s.uploads - {id})
    case WriteTemp(file) => s.(temp := Whole(file), stage := Written(s.stage.before, s.stage.result))
    case Rename => s.(catalogue := Some(s.temp.file), temp := NoTemp, stage := Renamed(s.stage.result))
    case Finish =>
      s.(stage := Idle, returned := if s.stage.result.Some? then s.returned + [s.stage.result.value] else s.returned)
    case CrashAndLoad(torn) =>
      s.(mem := Loaded(FRESH, s.catalogue), temp := if s.stage.Changed? && torn then Torn else s.temp,
         uploads := map[], stage := Idle)
  }

  ghost predicate Runs(s: System, steps: seq<Step>, s': System)
    decreases |steps|
  {
    if steps == [] then s == s' else Enabled(s, steps[0]) && Runs(Next(s, steps[0]), steps[1..], s')
  }

  /** How many ids the run asks for. */
  function Allocs(steps: seq<Step>): nat {
    if steps == [] then 0 else (if steps[0].Invoke? && steps[0].op.AllocOp? then 1 else 0) + Allocs(steps[1..])
  }

  // ----- the invariant -----

  /** The store that a restart at this point would come up with. */
  function Durable(s: System): Mem {
    Loaded(FRESH, s.catalogue)
  }

  /** Disk and memory differ by exactly the operation under way. */
  ghost predicate DiskOk(s: System) {
    match s.stage
    case Idle => Durable(s) == s.mem
    case Changed(before, _) => Durable(s) == before && before.nextID <= s.mem.nextID
    case Written(before, _) => Durable(s) == before && before.nextID <= s.mem.nextID
                               && s.temp.Whole? && IsSaved(s.mem, s.temp.file)
    case Renamed(_) => Durable(s) == s.mem
  }

  ghost predicate Increasing(ids: seq<u64>) {
    forall i, j :: 0 <= i < j < |ids| ==> ids[i] < ids[j]
  }

  ghost predicate AllBelow(ids: seq<u64>, bound: u64) {
    forall i :: 0 <= i < |ids| ==> ids[i] < bound
  }

  /** Returned ids increase, the counters in memory and on disk are past them, and so is the id about to be returned. */
  ghost predicate IdsOk(s: System) {
    && Increasing(s.returned) && AllBelow(s.returned, Durable(s).nextID) && AllBelow(s.returned, s.mem.nextID)
    && (s.stage.Pending().Some? ==> AllBelow(s.returned, s.stage.Pending().value) && s.stage.Pending().value < s.mem.nextID)
  }

  ghost predicate Inv(s: System) {
    WellFormed(s.mem) && WellFormed(Durable(s)) && DiskOk(s) && IdsOk(s)
  }

  lemma InitialInv()
    ensures Inv(INITIAL)
  {
  }

  lemma ApplyKeeps(m: Mem, op: Op)
    requires WellFormed(m) && (op.AllocOp? ==> m.nextID < TWO_TO_64 - 1)
    ensures WellFormed(Apply(m, op))
    ensures Apply(m, op).nextID == if op.AllocOp? then m.nextID + 1 else m.nextID
    ensures !Persists(m, op) ==> Apply(m, op) == m
  {
  }

  lemma BegunKeepsInv(s: System, op: Op)
    requires Inv(s) && s.stage.Idle?
    requires op.AllocOp? ==> s.mem.nextID < TWO_TO_64 - 1
    ensures Inv(Begun(s, op))
  {
    ApplyKeeps(s.mem, op);
  }

  lemma StepKeepsInv(s: System, step: Step)
    requires Inv(s) && Enabled(s, step)
    requires step.Invoke? && step.op.AllocOp? ==> s.mem.nextID < TWO_TO_64 - 1
    ensures Inv(Next(s, step))
    ensures Next(s, step).mem.nextID <= s.mem.nextID + (if step.Invoke? && step.op.AllocOp? then 1 else 0)
  {
    match step
    case Invoke(op) => BegunKeepsInv(s, op); ApplyKeeps(s.mem, op);
    case RecordSize(id) => BegunKeepsInv(s, SizeOp(id, s.uploads[id]));
    case Rename => LoadInvertsSave(s.mem, s.temp.file);
    case _ =>
  }

  lemma {:induction false} RunsKeepInv(s: System, steps: seq<Step>, s': System)
    requires Inv(s) && Runs(s, steps, s') && s.mem.nextID + Allocs(steps) < TWO_TO_64
    ensures Inv(s')
    decreases |steps|
  {
    if steps != [] {
      StepKeepsInv(s, steps[0]);
      RunsKeepInv(Next(s, steps[0]), steps[1..], s');
    }
  }

  // ----- what a reader of the system relies on -----

  function AllocSteps(d: Draft, file: Saved): seq<Step> {
    [Invoke(AllocOp(d)), WriteTemp(file), Rename, Finish]
  }

  /** An allocation that runs through. */
  lemma AllocRuns(s: System, d: Draft, file: Saved) returns (s': System)
    requires s.stage.Idle? && IsSaved(Allocated(s.mem, d), file)
    ensures Runs(s, AllocSteps(d, file), s') && Allocs(AllocSteps(d, file)) == 1
    ensures s' == s.(mem := Allocated(s.mem, d), catalogue := Some(file), temp := NoTemp, returned := s.returned + [s.mem.nextID])
  {
    var a := Next(s, Invoke(AllocOp(d)));
    var b := Next(a, WriteTemp(file));
    var c := Next(b, Rename);
    s' := Next(c, Finish);
    var steps := AllocSteps(d, file);
    assert steps[1..] == [WriteTemp(file), Rename, Finish];
    assert steps[1..][1..] == [Rename, Finish];
    assert steps[1..][1..][1..] == [Finish];
    assert Runs(c, [Finish], s') && Allocs([Finish]) == 0;
    assert Runs(b, [Rename, Finish], s') && Allocs([Rename, Finish]) == 0;
    assert Runs(a, [WriteTemp(file), Rename, Finish], s') && Allocs([WriteTemp(file), Rename, Finish]) == 0;
  }

  lemma {:induction false} RunsAppend(s: System, a: seq<Step>, s1: System, b: seq<Step>, s2: System)
    requires Runs(s, a, s1) && Runs(s1, b, s2)
    ensures Runs(s, a + b, s2)
    decreases |a|
  {
    if a == [] {
      assert a + b == b;
    } else {
      assert (a + b)[0] == a[0] && (a + b)[1..] == a[1..] + b;
      RunsAppend(Next(s, a[0]), a[1..], s1, b, s2);
    }
  }

  lemma {:induction false} AllocsAppend(a: seq<Step>, b: seq<Step>)
    ensures Allocs(a + b) == Allocs(a) + Allocs(b)
    decreases |a|
  {
    if a == [] {
      assert a + b == b;
    } else {
      assert (a + b)[0] == a[0] && (a + b)[1..] == a[1..] + b;
      AllocsAppend(a[1..], b);
    }
  }

  lemma ListingGrows(courses: seq<Course>, byID: map<u64, Course>, keys: seq<u64>, k: u64)
    requires k in byID && ListsInOrder(courses, byID - {k}, keys)
    ensures ListsInOrder(courses + [byID[k]], byID, keys + [k])
  {
    assert k !in keys;
  }

  lemma {:induction false} ListingExists(byID: map<u64, Course>) returns (courses: seq<Course>, keys: seq<u64>)
    ensures ListsInOrder(courses, byID, keys)
    decreases |byID|
  {
    courses, keys := [], [];
    if k :| k in byID {
      SmallerWithout(byID, k);
      courses, keys := ListingExists(byID - {k});
      ListingGrows(courses, byID, keys, k);
      courses, keys := courses + [byID[k]], keys + [k];
    }
  }

  /** Some file holds the store. */
  lemma FileExists(m: Mem) returns (file: Saved)
    ensures IsSaved(m, file)
  {
    var courses, keys := ListingExists(m.byID);
    file := Saved(m.nextID, courses);
  }

  /** Every counter value up to the last one is reached, with one allocation for each id below it. */
  lemma {:induction false} CounterIsReached(n: nat, d: Draft) returns (steps: seq<Step>, s: System)
    requires FIRST_ID + n < TWO_TO_64
    ensures Runs(INITIAL, steps, s) && Allocs(steps) == n
    ensures s.stage.Idle? && s.mem.nextID == FIRST_ID + n && |s.returned| == n && (n > 0 ==> s.returned[0] == FIRST_ID)
  {
    if n == 0 {
      steps, s := [], INITIAL;
    } else {
      var before, s0 := CounterIsReached(n - 1, d);
      var file := FileExists(Allocated(s0.mem, d));
      s := AllocRuns(s0, d, file);
      RunsAppend(INITIAL, before, s0, AllocSteps(d, file), s);
      AllocsAppend(before, AllocSteps(d, file));
      steps := before + AllocSteps(d, file);
    }
  }

  /** Once the counter stands at its last value, one allocation wraps it, a restart begins at 1000 again, and the next returns 1000. */
  lemma LastIdStartsOver(s: System, d: Draft) returns (steps: seq<Step>, s': System)
    requires s.stage.Idle? && s.mem.nextID == TWO_TO_64 - 1
    ensures Runs(s, steps, s') && Allocs(steps) == 2 && s'.returned == s.returned + [TWO_TO_64 - 1, FIRST_ID]
  {
    var file := FileExists(Allocated(s.mem, d));
    var s1 := AllocRuns(s, d, file);
    var s2 := Next(s1, CrashAndLoad(false));
    assert Runs(s1, [CrashAndLoad(false)], s2);
    assert s2.mem.nextID == FIRST_ID;
    var file' := FileExists(Allocated(s2.mem, d));
    s' := AllocRuns(s2, d, file');
    RunsAppend(s1, [CrashAndLoad(false)], s2, AllocSteps(d, file'), s');
    AllocsAppend([CrashAndLoad(false)], AllocSteps(d, file'));
    steps := [CrashAndLoad(false)] + AllocSteps(d, file');
    RunsAppend(s, AllocSteps(d, file), s1, steps, s');
    AllocsAppend(AllocSteps(d, file), steps);
    steps := AllocSteps(d, file) + steps;
    assert s.returned + [TWO_TO_64 - 1] + [FIRST_ID] == s.returned + [TWO_TO_64 - 1, FIRST_ID];
  }

  /** A run from an empty directory that returns an id twice. */
  lemma SomeIdIsReused() returns (steps: seq<Step>, s: System)
    ensures Runs(INITIAL, steps, s) && Allocs(steps) == TWO_TO_64 - FIRST_ID + 1
    ensures s.returned != [] && FIRST_ID == s.returned[0] == s.returned[|s.returned| - 1] && !Increasing(s.returned)
  {
    var d := Draft(0, [], 0, [], [], 0, 0);
    var a, s1 := CounterIsReached(TWO_TO_64 - 1 - FIRST_ID, d);
    var b, s2 := LastIdStartsOver(s1, d);
    RunsAppend(INITIAL, a, s1, b, s2);
    AllocsAppend(a, b);
    steps, s := a + b, s2;
  }

  /** What is still in order when the counter has wrapped and nobody asks for an id any more. */
  ghost predicate ReturnedOk(s: System) {
    Increasing(s.returned) && (s.stage.Pending().Some? ==> AllBelow(s.returned, s.stage.Pending().value))
  }

  lemma {:induction false} RunsKeepReturned(s: System, steps: seq<Step>, s': System)
    requires ReturnedOk(s) && Runs(s, steps, s') && Allocs(steps) == 0
    ensures Increasing(s'.returned)
    decreases |steps|
  {
    if steps != [] {
      RunsKeepReturned(Next(s, steps[0]), steps[1..], s');
    }
  }

  lemma {:induction false} RunsKeepIncreasing(s: System, steps: seq<Step>, s': System)
    requires Inv(s) && Runs(s, steps, s') && s.mem.nextID + Allocs(steps) <= TWO_TO_64
    ensures Increasing(s'.returned)
    decreases |steps|
  {
    if steps != [] {
      if steps[0].Invoke? && steps[0].op.AllocOp? && s.mem.nextID == TWO_TO_64 - 1 {
        RunsKeepReturned(Next(s, steps[0]), steps[1..], s');
      } else {
        StepKeepsInv(s, steps[0]);
        RunsKeepIncreasing(Next(s, steps[0]), steps[1..], s');
      }
    }
  }

  /**
   Over any run of allocations, completions, uploads and crashes that asks for no more ids than 64 bits hold from 1000
   on, the ids returned strictly increase: none is ever returned twice, whatever became of its course.
   */
  lemma IdsNeverReused(steps: seq<Step>, s: System)
    requires Runs(INITIAL, steps, s) && 1000 + Allocs(steps) <= TWO_TO_64
    ensures Increasing(s.returned)
    ensures forall i, j :: 0 <= i < j < |s.returned| ==> s.returned[i] != s.returned[j]
  {
    InitialInv();
    RunsKeepIncreasing(INITIAL, steps, s);
  }

  /** Whether any run that asks for at most `allocs` ids gets strictly increasing ones. */
  ghost predicate AlwaysIncreasing(allocs: nat) {
    forall steps, s :: Runs(INITIAL, steps, s) && Allocs(steps) <= allocs ==> Increasing(s.returned)
  }

  /**
   The ids returned strictly increase, over all runs of allocations, completions, uploads and crashes, exactly as long
   as no more ids are asked for than 64 bits hold from 1000 on.
   */
  lemma IncreasingIff(allocs: nat)
    ensures AlwaysIncreasing(allocs) <==> FIRST_ID + allocs <= TWO_TO_64
  {
    if FIRST_ID + allocs <= TWO_TO_64 {
      forall steps, s | Runs(INITIAL, steps, s) && Allocs(steps) <= allocs
        ensures Increasing(s.returned)
      {
        IdsNeverReused(steps, s);
      }
    } else {
      var steps, s := SomeIdIsReused();
      assert Runs(INITIAL, steps, s) && Allocs(steps) <= allocs;
    }
  }

  // ----- crashes -----

  /** What a restart comes up with, by the stage the crash hits: the store before the operation until the rename, then the one after. */
  lemma CrashRestores(s: System, torn: bool)
    requires Inv(s)
    ensures Next(s, CrashAndLoad(torn)).mem == if s.stage.Changed? || s.stage.Written? then s.stage.before else s.mem
  {
  }

  /** The first step of an operation: a call of alloc or complete, or the second half of an upload. */
  ghost predicate Starts(s: System, step: Step, op: Op) {
    Enabled(s, step) && (step == Invoke(op) || (step.RecordSize? && op == SizeOp(step.id, s.uploads[step.id])))
  }

  /** What happens between the first step of an operation and its return: its own writes, and other uploads storing blobs. */
  predicate IsDiskStep(step: Step) {
    step.WriteTemp? || step.Rename? || step.StoreBlob?
  }

  /** The operation on the store `m` is under way, and its rename has happened or not. */
  predicate UnderWay(s: System, m: Mem, op: Op, renamed: bool) {
    match s.stage
    case Idle => !renamed && s.mem == m == Apply(m, op)
    case Renamed(_) => renamed && s.mem == Apply(m, op)
    case _ => !renamed && s.stage.before == m && s.mem == Apply(m, op)
  }

  lemma {:induction false} DiskStepsKeepUnderWay(s: System, own: seq<Step>, s': System, m: Mem, op: Op, renamed: bool)
    requires Inv(s) && UnderWay(s, m, op, renamed) && Runs(s, own, s')
    requires forall i :: 0 <= i < |own| ==> IsDiskStep(own[i])
    ensures Inv(s') && UnderWay(s', m, op, renamed || Rename in own)
    decreases |own|
  {
    if own != [] {
      assert IsDiskStep(own[0]) && own == [own[0]] + own[1..];
      StepKeepsInv(s, own[0]);
      DiskStepsKeepUnderWay(Next(s, own[0]), own[1..], s', m, op, renamed || own[0].Rename?);
    }
  }

  /**
   A crash in the middle of an allocation, a completion or the recording of a size, at any point of any run, is atomic:
   the restarted store is the one the operation started from while the rename has not happened, and the one the
   operation makes of it afterwards.
   */
  lemma {:induction false} CrashIsAtomic(first: seq<Step>, s: System, step: Step, op: Op, own: seq<Step>, s1: System, torn: bool)
    requires Runs(INITIAL, first, s) && Starts(s, step, op) && FIRST_ID + Allocs(first) < TWO_TO_64 - 1
    requires Runs(Next(s, step), own, s1) && forall i :: 0 <= i < |own| ==> IsDiskStep(own[i])
    ensures Next(s1, CrashAndLoad(torn)).mem == if Rename in own then Apply(s.mem, op) else s.mem
  {
    InitialInv();
    RunsKeepInv(INITIAL, first, s);
    CounterBelow(INITIAL, first, s);
    StepKeepsInv(s, step);
    ApplyKeeps(s.mem, op);
    DiskStepsKeepUnderWay(Next(s, step), own, s1, s.mem, op, false);
    CrashRestores(s1, torn);
  }

  lemma {:induction false} CounterBelow(s: System, steps: seq<Step>, s': System)
    requires Inv(s) && Runs(s, steps, s') && s.mem.nextID + Allocs(steps) < TWO_TO_64
    ensures s'.mem.nextID <= s.mem.nextID + Allocs(steps)
    decreases |steps|
  {
    if steps != [] {
      StepKeepsInv(s, steps[0]);
      CounterBelow(Next(s, steps[0]), steps[1..], s');
    }
  }

  /** Between operations a crash loses nothing but the sizes of uploads under way: catalogue and blobs stay. */
  lemma CrashBetweenLosesNothing(steps: seq<Step>, s: System, torn: bool)
    requires Runs(INITIAL, steps, s) && FIRST_ID + Allocs(steps) < TWO_TO_64 && s.stage.Idle?
    ensures Next(s, CrashAndLoad(torn)).mem == s.mem && Next(s, CrashAndLoad(torn)).blobs == s.blobs
  {
    InitialInv();
    RunsKeepInv(INITIAL, steps, s);
  }
}
