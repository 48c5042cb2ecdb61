/**
 The course catalogue: an allocator of data ids with its records, written to a temporary file that is
 renamed over the catalogue.
 */
module Catalogue {
  import opened Bytes

  datatype Course = Course(dataID: u64, owner: u64, name: Blob, dataType: u16, metaHex: Blob, tags: seq<Blob>,
                           size: u32, ready: bool, createdAt: int)

  /** What prepare_post hands to the allocator. */
  datatype Draft = Draft(owner: u64, name: Blob, dataType: u16, metaHex: Blob, tags: seq<Blob>, size: u32, createdAt: int)

  /** The content of a catalogue file. */
  datatype Saved = Saved(nextID: u64, courses: seq<Course>)

  /** The store in memory. */
  datatype Mem = Mem(nextID: u64, byID: map<u64, Course>)

  const FIRST_ID: u64 := 1000
  const FRESH := Mem(FIRST_ID, map[])

  // ----- the operations, on values -----

  function NewCourse(id: u64, d: Draft): Course {
    Course(id, d.owner, d.name, d.dataType, d.metaHex, d.tags, d.size, false, d.createdAt)
  }

  /** The id is the counter; the counter wraps like a 64-bit register. */
  function Allocated(m: Mem, d: Draft): Mem {
    Mem((m.nextID + 1) % TWO_TO_64, m.byID[m.nextID := NewCourse(m.nextID, d)])
  }

  /** An upload that succeeded marks its course ready, one that failed drops it; an unknown id changes nothing. */
  function Completed(m: Mem, id: u64, ok: bool): Mem {
    if id !in m.byID then m
    else m.(byID := if ok then m.byID[id := m.byID[id].(ready := true)] else m.byID - {id})
  }

  function Resized(m: Mem, id: u64, size: u32): Mem {
    if id !in m.byID then m else m.(byID := m.byID[id := m.byID[id].(size := size)])
  }

  // ----- persistence -----

  /** `courses` are the records of `byID`, one each, in the order of `keys`. */
  ghost predicate ListsInOrder(courses: seq<Course>, byID: map<u64, Course>, keys: seq<u64>) {
    && |courses| == |keys|
    && (forall i, j :: 0 <= i < j < |keys| ==> keys[i] != keys[j])
    && (forall k :: k in keys <==> k in byID)
    && (forall i :: 0 <= i < |keys| ==> keys[i] in byID && courses[i] == byID[keys[i]])
  }

  /** `courses` are the records of `byID` in some order, as the iteration over a Go map gives them. */
  ghost predicate Lists(courses: seq<Course>, byID: map<u64, Course>) {
    exists keys :: ListsInOrder(courses, byID, keys)
  }

  ghost predicate IsSaved(m: Mem, file: Saved) {
    file.nextID == m.nextID && Lists(file.courses, m.byID)
  }

  function Indexed(courses: seq<Course>, onto: map<u64, Course>): map<u64, Course> {
    if courses == [] then onto else Indexed(courses[1..], onto[courses[0].dataID := courses[0]])
  }

  /** What load makes of the store `m` when it finds `file`. */
  function Loaded(m: Mem, file: Option<Saved>): Mem {
    match file
    case None => m
    case Some(saved) => Mem(if saved.nextID > m.nextID then saved.nextID else m.nextID, Indexed(saved.courses, m.byID))
  }

  /** Every record sits under its own id, and every id has been allocated. */
  predicate WellFormed(m: Mem) {
    m.nextID >= FIRST_ID && forall id :: id in m.byID ==> m.byID[id].dataID == id && id < m.nextID
  }

  lemma {:induction false} IndexedLookup(courses: seq<Course>, onto: map<u64, Course>, id: u64)
    requires forall i, j :: 0 <= i < j < |courses| ==> courses[i].dataID != courses[j].dataID
    ensures id in Indexed(courses, onto) <==> id in onto || exists i :: 0 <= i < |courses| && courses[i].dataID == id
    ensures forall i :: 0 <= i < |courses| && courses[i].dataID == id ==> Indexed(courses, onto)[id] == courses[i]
    ensures id in onto && (forall i :: 0 <= i < |courses| ==> courses[i].dataID != id) ==> Indexed(courses, onto)[id] == onto[id]
    decreases |courses|
  {
    if courses != [] {
      var rest := courses[1..];
      assert forall i :: 0 <= i < |rest| ==> rest[i] == courses[i + 1];
      IndexedLookup(rest, onto[courses[0].dataID := courses[0]], id);
      assert forall i :: 0 < i < |courses| ==> courses[i] == rest[i - 1];
    }
  }

  /** Loading any file onto any store: the later record of an id wins, over those before it and over the one in the store. */
  lemma {:induction false} LastRecordWins(courses: seq<Course>, onto: map<u64, Course>, id: u64, i: nat)
    requires forall j :: i < j < |courses| ==> courses[j].dataID != id
    ensures i < |courses| && courses[i].dataID == id ==> id in Indexed(courses, onto) && Indexed(courses, onto)[id] == courses[i]
    ensures (forall j :: 0 <= j < |courses| ==> courses[j].dataID != id) ==>
      (id in Indexed(courses, onto) <==> id in onto) && (id in onto ==> Indexed(courses, onto)[id] == onto[id])
    decreases |courses|
  {
    if courses != [] {
      var rest, onto' := courses[1..], onto[courses[0].dataID := courses[0]];
      assert forall j :: 0 <= j < |rest| ==> rest[j] == courses[j + 1];
      assert forall j :: 0 < j < |courses| ==> courses[j] == rest[j - 1];
      LastRecordWins(rest, onto', id, if i == 0 then 0 else i - 1);
      if i == 0 && courses[0].dataID == id {
        assert forall j :: 0 <= j < |rest| ==> rest[j].dataID != id;
      }
    }
  }

  /** The counter never goes back: the larger of the file's and the store's is kept. */
  lemma LoadKeepsLargerCounter(m: Mem, saved: Saved)
    ensures Loaded(m, Some(saved)).nextID >= m.nextID && Loaded(m, Some(saved)).nextID >= saved.nextID
    ensures Loaded(m, Some(saved)).nextID in {m.nextID, saved.nextID}
    ensures Loaded(m, None) == m
  {
  }

  /** A fresh process that loads what a well-formed store wrote has the same store, whatever order it was written in. */
  lemma LoadInvertsSave(m: Mem, file: Saved)
    requires WellFormed(m) && IsSaved(m, file)
    ensures Loaded(FRESH, Some(file)) == m
  {
    var keys :| ListsInOrder(file.courses, m.byID, keys);
    var got := Indexed(file.courses, map[]);
    forall id: u64
      ensures id in got <==> id in m.byID
      ensures id in got ==> got[id] == m.byID[id]
    {
      ListedIsFound(m, file.courses, keys, id);
    }
    assert got == m.byID;
  }

  lemma ListedIsFound(m: Mem, courses: seq<Course>, keys: seq<u64>, id: u64)
    requires WellFormed(m) && ListsInOrder(courses, m.byID, keys)
    ensures id in Indexed(courses, map[]) <==> id in m.byID
    ensures id in m.byID ==> Indexed(courses, map[])[id] == m.byID[id]
  {
    assert forall i :: 0 <= i < |courses| ==> courses[i].dataID == keys[i];
    IndexedLookup(courses, map[], id);
    if id in keys {
      var i :| 0 <= i < |keys| && keys[i] == id;
      assert courses[i].dataID == id;
    }
  }

  // ----- well-formedness is kept -----

  lemma OperationsKeepWellFormed(m: Mem, d: Draft, id: u64, ok: bool, size: u32)
    requires WellFormed(m)
    ensures WellFormed(Allocated(m, d)) <==> m.nextID < TWO_TO_64 - 1
    ensures WellFormed(Completed(m, id, ok)) && WellFormed(Resized(m, id, size))
  {
    if m.nextID == TWO_TO_64 - 1 {
      assert Allocated(m, d).nextID == 0;
    }
  }

  /**
   The life of a course: allocated it waits with the declared size; filled and completed it holds the draft's
   data, the uploaded size and the ready mark under a new id; cancelled instead, the records are what they were
   before the allocation.
   */
  lemma CourseLifecycle(m: Mem, d: Draft, size: u32)
    requires WellFormed(m)
    ensures m.nextID !in m.byID
    ensures Allocated(m, d).byID[m.nextID].size == d.size && !Allocated(m, d).byID[m.nextID].ready
    ensures var filled := Resized(Allocated(m, d), m.nextID, size);
      && Completed(filled, m.nextID, true).byID
         == m.byID[m.nextID := Course(m.nextID, d.owner, d.name, d.dataType, d.metaHex, d.tags,
                                      size, true, d.createdAt)]
      && Completed(filled, m.nextID, false).byID == m.byID
  {
  }

  /** Every operation leaves the other courses alone, and only an allocation moves the counter. */
  lemma OthersUntouched(m: Mem, d: Draft, id: u64, ok: bool, size: u32, other: u64)
    requires other != id && other != m.nextID
    ensures forall m' :: m' in {Allocated(m, d), Completed(m, id, ok), Resized(m, id, size)} ==>
      (other in m'.byID <==> other in m.byID) && (other in m.byID ==> m'.byID[other] == m.byID[other])
    ensures Completed(m, id, ok).nextID == Resized(m, id, size).nextID == m.nextID
  {
  }

  // ----- the store and its disk -----

  class Disk {
    var catalogue: Option<Saved>
    var temp: Option<Saved>
    var blobs: map<u64, Blob>

    constructor ()
      ensures catalogue == None && temp == None && blobs == map[]
    {
      catalogue, temp, blobs := None, None, map[];
    }
  }

  class CourseStore {
    var nextID: u64
    var byID: map<u64, Course>
    const disk: Disk

    function Memory(): Mem
      reads this
    {
      Mem(nextID, byID)
    }

    constructor (disk: Disk)
      ensures this.disk == disk && Memory() == FRESH
    {
      this.disk := disk;
      nextID, byID := FIRST_ID, map[];
    }

    /** Restores the counter and the records; the file is absent or readable. */
    method Load()
      modifies this
      ensures Memory() == Loaded(old(Memory()), disk.catalogue)
    {
      match disk.catalogue {
        case None =>
        case Some(saved) =>
          if saved.nextID > nextID {
            nextID := saved.nextID;
          }
          for i := 0 to |saved.courses|
            invariant nextID == Loaded(old(Memory()), Some(saved)).nextID
            invariant Indexed(saved.courses[i..], byID) == Indexed(saved.courses, old(byID))
          {
            byID := byID[saved.courses[i].dataID := saved.courses[i]];
          }
      }
    }

    method PersistLocked()
      modifies disk`temp, disk`catalogue
      ensures disk.temp == None && disk.catalogue.Some? && IsSaved(Memory(), disk.catalogue.value)
    {
      var courses: seq<Course> := [];
      var left := byID.Keys;
      ghost var keys: seq<u64> := [];
      while left != {}
        invariant left <= byID.Keys && |courses| == |keys|
        invariant forall i, j :: 0 <= i < j < |keys| ==> keys[i] != keys[j]
        invariant forall k :: k in keys <==> k in byID && k !in left
        invariant forall i :: 0 <= i < |keys| ==> keys[i] in byID && courses[i] == byID[keys[i]]
        decreases |left|
      {
        var k :| k in left;
        courses, left, keys := courses + [byID[k]], left - {k}, keys + [k];
      }
      assert ListsInOrder(courses, byID, keys);
      disk.temp := Some(Saved(nextID, courses));
      disk.catalogue, disk.temp := disk.temp, None;
    }

    method Alloc(d: Draft) returns (id: u64)
      modifies this, disk`temp, disk`catalogue
      ensures id == old(nextID) && Memory() == Allocated(old(Memory()), d)
      ensures disk.temp == None && disk.catalogue.Some? && IsSaved(Memory(), disk.catalogue.value)
    {
      id := nextID;
      nextID := (nextID + 1) % TWO_TO_64;
      byID := byID[id := NewCourse(id, d)];
      PersistLocked();
    }

    method Complete(id: u64, ok: bool)
      modifies this, disk`temp, disk`catalogue
      ensures Memory() == Completed(old(Memory()), id, ok)
      ensures id !in old(byID) ==> disk.temp == old(disk.temp) && disk.catalogue == old(disk.catalogue)
      ensures id in old(byID) ==> disk.temp == None && disk.catalogue.Some? && IsSaved(Memory(), disk.catalogue.value)
    {
      if id !in byID {
        return;
      }
      if ok {
        byID := byID[id := byID[id].(ready := true)];
      } else {
        byID := byID - {id};
      }
      PersistLocked();
    }

    method SetSize(id: u64, size: u32)
      modifies this, disk`temp, disk`catalogue
      ensures Memory() == Resized(old(Memory()), id, size)
      ensures id !in old(byID) ==> disk.temp == old(disk.temp) && disk.catalogue == old(disk.catalogue)
      ensures id in old(byID) ==> disk.temp == None && disk.catalogue.Some? && IsSaved(Memory(), disk.catalogue.value)
    {
      if id in byID {
        byID := byID[id := byID[id].(size := size)];
        PersistLocked();
      }
    }

    method Get(id: u64) returns (m: Option<Course>)
      ensures m == if id in byID then Some(byID[id]) else None
    {
      m := if id in byID then Some(byID[id]) else None;
    }
  }
}
