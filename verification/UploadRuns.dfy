/** The recorded size and the stored blob over whole runs, with uploads, other operations and crashes interleaved. */
module UploadRuns {
  import opened Bytes
  import opened Catalogue
  import opened CatalogueRuns

  ghost predicate SizeIn(m: Mem, id: u64, size: nat) {
    id in m.byID ==> m.byID[id].size == size
  }

  /** The blob of `id` is `data`, stored under an id that has been allocated. */
  ghost predicate Holds(s: System, id: u64, data: Blob) {
    id in s.blobs && s.blobs[id] == data && id < Durable(s).nextID
  }

  /** Wherever the course is catalogued, now or after a restart, its size is that of `data`, and no upload will change that. */
  ghost predicate SizeAgrees(s: System, id: u64, data: Blob) {
    Holds(s, id, data) && id !in s.uploads && SizeIn(s.mem, id, |data|) && SizeIn(Durable(s), id, |data|)
  }

  /** The size is waiting to be recorded, or recorded in memory with the rename ahead, or recorded for good. */
  ghost predicate Tracked(s: System, id: u64, data: Blob) {
    Holds(s, id, data) &&
    if id in s.uploads then s.uploads[id] == |data|
    else SizeIn(s.mem, id, |data|) && (s.stage.Changed? || s.stage.Written? || SizeIn(Durable(s), id, |data|))
  }

  predicate IsUploadOf(step: Step, id: u64) {
    step.StoreBlob? && step.id == id
  }

  lemma StepKeepsHold(s: System, step: Step, id: u64, data: Blob)
    requires Inv(s) && Enabled(s, step) && Holds(s, id, data) && !IsUploadOf(step, id)
    requires step.Invoke? && step.op.AllocOp? ==> s.mem.nextID < TWO_TO_64 - 1
    ensures Holds(Next(s, step), id, data)
  {
    if step.Rename? {
      LoadInvertsSave(s.mem, s.temp.file);
    }
  }

  lemma StepKeepsTracked(s: System, step: Step, id: u64, data: Blob)
    requires Inv(s) && Enabled(s, step) && Tracked(s, id, data) && !IsUploadOf(step, id) && !step.CrashAndLoad?
    requires step.Invoke? && step.op.AllocOp? ==> s.mem.nextID < TWO_TO_64 - 1
    ensures Tracked(Next(s, step), id, data)
  {
    StepKeepsHold(s, step, id, data);
    match step
    case Rename => LoadInvertsSave(s.mem, s.temp.file);
    case _ =>
  }

  lemma StepKeepsSize(s: System, step: Step, id: u64, data: Blob)
    requires Inv(s) && Enabled(s, step) && SizeAgrees(s, id, data) && !IsUploadOf(step, id)
    requires step.Invoke? && step.op.AllocOp? ==> s.mem.nextID < TWO_TO_64 - 1
    ensures SizeAgrees(Next(s, step), id, data)
  {
    StepKeepsHold(s, step, id, data);
    match step
    case Rename => LoadInvertsSave(s.mem, s.temp.file);
    case _ =>
  }

  ghost predicate NoUploadOf(steps: seq<Step>, id: u64) {
    forall i :: 0 <= i < |steps| ==> !IsUploadOf(steps[i], id)
  }

  ghost predicate NoCrash(steps: seq<Step>) {
    forall i :: 0 <= i < |steps| ==> !steps[i].CrashAndLoad?
  }

  lemma {:induction false} RunsKeepTracked(s: System, steps: seq<Step>, s': System, id: u64, data: Blob)
    requires Inv(s) && Runs(s, steps, s') && Tracked(s, id, data) && NoUploadOf(steps, id) && NoCrash(steps)
    requires s.mem.nextID + Allocs(steps) < TWO_TO_64
    ensures Inv(s') && Tracked(s', id, data)
    decreases |steps|
  {
    if steps != [] {
      assert !IsUploadOf(steps[0], id) && !steps[0].CrashAndLoad?;
      assert forall i :: 0 <= i < |steps[1..]| ==> steps[1..][i] == steps[i + 1];
      StepKeepsInv(s, steps[0]);
      StepKeepsTracked(s, steps[0], id, data);
      RunsKeepTracked(Next(s, steps[0]), steps[1..], s', id, data);
    }
  }

  lemma {:induction false} RunsKeepSize(s: System, steps: seq<Step>, s': System, id: u64, data: Blob)
    requires Inv(s) && Runs(s, steps, s') && SizeAgrees(s, id, data) && NoUploadOf(steps, id)
    requires s.mem.nextID + Allocs(steps) < TWO_TO_64
    ensures SizeAgrees(s', id, data)
    decreases |steps|
  {
    if steps != [] {
      assert !IsUploadOf(steps[0], id);
      assert forall i :: 0 <= i < |steps[1..]| ==> steps[1..][i] == steps[i + 1];
      StepKeepsInv(s, steps[0]);
      StepKeepsSize(s, steps[0], id, data);
      RunsKeepSize(Next(s, steps[0]), steps[1..], s', id, data);
    }
  }

  /**
   An upload under an allocated id, in the middle of anything else: allocations, completions and uploads of other
   courses. Once its size has been recorded without a crash in between, the size prepare_get announces is the length
   of the blob a GET serves, through any later operations and crashes, until the next upload of that course starts or
   the course is removed.
   */
  lemma {:induction false} AnnouncedSizeIsServedSize(first: seq<Step>, s: System, id: u64, data: Blob, during: seq<Step>, s1: System,
                                                     later: seq<Step>, s2: System)
    requires Runs(INITIAL, first, s) && id in s.returned && Enabled(s, StoreBlob(id, data))
    requires Runs(Next(s, StoreBlob(id, data)), during, s1) && NoUploadOf(during, id) && NoCrash(during)
    requires id !in s1.uploads && s1.stage.Idle?
    requires Runs(s1, later, s2) && NoUploadOf(later, id)
    requires FIRST_ID + Allocs(first) + Allocs(during) + Allocs(later) < TWO_TO_64
    ensures id in s2.blobs && s2.blobs[id] == data
    ensures id in s2.mem.byID ==> s2.mem.byID[id].size == |s2.blobs[id]|
  {
    InitialInv();
    RunsKeepInv(INITIAL, first, s);
    CounterBelow(INITIAL, first, s);
    var a := Next(s, StoreBlob(id, data));
    StepKeepsInv(s, StoreBlob(id, data));
    RunsKeepTracked(a, during, s1, id, data);
    CounterBelow(a, during, s1);
    RunsKeepSize(s1, later, s2, id, data);
  }

  /**
   A crash between storing the blob and recording its size leaves the old size, so announced and served size agree
   exactly when the new blob has the length recorded before.
   */
  lemma TornUploadAgreesIff(steps: seq<Step>, s: System, id: u64, data: Blob, torn: bool)
    requires Runs(INITIAL, steps, s) && FIRST_ID + Allocs(steps) < TWO_TO_64
    requires s.stage.Idle? && id in s.mem.byID && Enabled(s, StoreBlob(id, data))
    ensures var s' := Next(Next(s, StoreBlob(id, data)), CrashAndLoad(torn));
      && id in s'.mem.byID && id in s'.blobs && s'.mem.byID[id].size == s.mem.byID[id].size
      && (s'.mem.byID[id].size == |s'.blobs[id]| <==> s.mem.byID[id].size == |data|)
  {
    InitialInv();
    RunsKeepInv(INITIAL, steps, s);
  }
}
