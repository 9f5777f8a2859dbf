/**
 The table of commitments: one file shared by every process that makes CARs, written under a file
 lock, and read back as a sorted list whose order numbers the cars.
 */
module CommPTable {
  import opened Bytes
  import opened Collections

  type Table = map<Bytes, nat>

  // ----- canonical order

  /** bytes.Compare(a, b) < 0. */
  predicate BytesLess(a: Bytes, b: Bytes) {
    if |b| == 0 then false
    else if |a| == 0 then true
    else if a[0] != b[0] then a[0] < b[0]
    else BytesLess(a[1..], b[1..])
  }

  /** a is a proper prefix of b, or smaller at the first place where they differ. */
  ghost predicate Precedes(a: Bytes, b: Bytes) {
    exists k: nat :: LessAt(a, b, k)
  }

  predicate LessAt(a: Bytes, b: Bytes, k: nat) {
    k <= |a| && k < |b| && a[..k] == b[..k] && (k == |a| || Val(a[k]) < Val(b[k]))
  }

  /** That is what the comparison finds. */
  lemma {:induction false} LessExactly(a: Bytes, b: Bytes)
    ensures BytesLess(a, b) <==> Precedes(a, b)
  {
    if |a| == 0 || |b| == 0 || a[0] != b[0] {
      FirstDecides(a, b);
    } else {
      LessExactly(a[1..], b[1..]);
      if k: nat :| LessAt(a, b, k) {
        assert LessAt(a[1..], b[1..], k - 1) by {
          assert a[1..][..k - 1] == a[..k][1..] && b[1..][..k - 1] == b[..k][1..];
        }
      }
      if k: nat :| LessAt(a[1..], b[1..], k) {
        assert LessAt(a, b, k + 1) by {
          assert a[..k + 1] == [a[0]] + a[1..][..k] && b[..k + 1] == [b[0]] + b[1..][..k];
        }
      }
    }
  }

  lemma FirstDecides(a: Bytes, b: Bytes)
    requires |a| == 0 || |b| == 0 || a[0] != b[0]
    ensures BytesLess(a, b) <==> Precedes(a, b)
  {
    assert LessAt(a, b, 0) <==> |b| > 0 && (|a| == 0 || Val(a[0]) < Val(b[0]));
    forall k: nat | LessAt(a, b, k)
      ensures k == 0
    {
      FirstAgrees(a, b, k);
    }
  }

  lemma FirstAgrees(a: Bytes, b: Bytes, k: nat)
    requires LessAt(a, b, k)
    ensures k > 0 ==> |a| > 0 && |b| > 0 && a[0] == b[0]
  {
    if k > 0 {
      assert a[..k][0] == a[0] && b[..k][0] == b[0];
    }
  }

  lemma {:induction false} LessAsymmetric(a: Bytes, b: Bytes)
    ensures BytesLess(a, b) ==> !BytesLess(b, a)
  {
    if |a| > 0 && |b| > 0 && a[0] == b[0] {
      LessAsymmetric(a[1..], b[1..]);
    }
  }

  lemma {:induction false} LessTransitive(a: Bytes, b: Bytes, c: Bytes)
    ensures !BytesLess(a, b) && !BytesLess(b, c) ==> !BytesLess(a, c)
  {
    if |a| > 0 && |b| > 0 && |c| > 0 && a[0] == b[0] == c[0] {
      LessTransitive(a[1..], b[1..], c[1..]);
    }
  }

  lemma {:induction false} LessTotal(a: Bytes, b: Bytes)
    ensures a == b || BytesLess(a, b) || BytesLess(b, a)
  {
    if |a| > 0 && |b| > 0 && a[0] == b[0] {
      LessTotal(a[1..], b[1..]);
      assert a == [a[0]] + a[1..] && b == [b[0]] + b[1..];
    }
  }

  const BYTES_LESS: (Bytes, Bytes) -> bool := (a, b) => BytesLess(a, b)

  lemma BytesLessIsOrder()
    ensures IsOrder(BYTES_LESS)
    ensures forall a, b :: a == b || BYTES_LESS(a, b) || BYTES_LESS(b, a)
  {
    forall a, b
      ensures BYTES_LESS(a, b) ==> !BYTES_LESS(b, a)
    {
      LessAsymmetric(a, b);
    }
    forall a, b, c
      ensures !BYTES_LESS(a, b) && !BYTES_LESS(b, c) ==> !BYTES_LESS(a, c)
    {
      LessTransitive(a, b, c);
    }
    forall a, b
      ensures a == b || BYTES_LESS(a, b) || BYTES_LESS(b, a)
    {
      LessTotal(a, b);
    }
  }

  /** Each key goes before all that follow. */
  ghost predicate Ascending(keys: seq<Bytes>) {
    forall i, j :: 0 <= i < j < |keys| ==> Precedes(keys[i], keys[j])
  }

  lemma AscendingIsIncreasing(keys: seq<Bytes>)
    ensures Ascending(keys) == Increasing(keys, BYTES_LESS)
  {
    forall i, j | 0 <= i < j < |keys|
      ensures Precedes(keys[i], keys[j]) == BYTES_LESS(keys[i], keys[j])
    {
      LessExactly(keys[i], keys[j]);
    }
  }

  /** The list of a table: its keys in strictly increasing order, each key's size beside it. */
  ghost predicate IsCanonical(c: Table, commp: seq<Bytes>, size: seq<nat>)
  {
    && Ascending(commp)
    && Elements(commp) == c.Keys
    && |size| == |commp|
    && forall i :: 0 <= i < |commp| ==> commp[i] in c && size[i] == c[commp[i]]
  }

  method SortCommPSlices(c: Table) returns (commp: seq<Bytes>, size: seq<nat>)
    ensures IsCanonical(c, commp, size)
  {
    var keys := Iterate(c.Keys);
    commp := SortSlice(keys, BYTES_LESS);
    KeysAscend(keys);
    SortElements(keys, BYTES_LESS);
    size := [];
    for i := 0 to |commp|
      invariant |size| == i
      invariant forall k :: 0 <= k < i ==> commp[k] in c && size[k] == c[commp[k]]
    {
      assert commp[i] in Elements(commp);
      size := size + [c[commp[i]]];
    }
  }

  lemma KeysAscend(keys: seq<Bytes>)
    requires Distinct(keys)
    ensures Ascending(SortSlice(keys, BYTES_LESS))
  {
    BytesLessIsOrder();
    SortSorted(keys, BYTES_LESS);
    SortDistinct(keys, BYTES_LESS);
    SortedIncreasing(SortSlice(keys, BYTES_LESS), BYTES_LESS);
    AscendingIsIncreasing(SortSlice(keys, BYTES_LESS));
  }

  /** A table has one list, whatever order its keys were met in: car indexes mean the same in every run. */
  lemma CanonicalUnique(c: Table, commp: seq<Bytes>, size: seq<nat>, commp': seq<Bytes>, size': seq<nat>)
    requires IsCanonical(c, commp, size) && IsCanonical(c, commp', size')
    ensures commp == commp' && size == size'
  {
    BytesLessIsOrder();
    AscendingIsIncreasing(commp);
    AscendingIsIncreasing(commp');
    IncreasingUnique(commp, commp', BYTES_LESS);
  }

  // ----- saving

  /** The table file. Opening it for writing empties it until the encoder has written. */
  datatype Disk = Missing | Emptied | Stored(table: Table)

  /** Reading the file back; a file that cannot be decoded counts as no table. */
  function Load(disk: Disk): Table {
    if disk.Stored? then disk.table else map[]
  }

  /** The sorted list of the table, or none when the file cannot be read. */
  method LoadSortCommp(disk: Disk) returns (r: Option<(seq<Bytes>, seq<nat>)>)
    ensures r.Some? <==> disk.Stored?
    ensures r.Some? ==> IsCanonical(disk.table, r.value.0, r.value.1)
  {
    if !disk.Stored? {
      return None;
    }
    var commp, size := SortCommPSlices(disk.table);
    return Some((commp, size));
  }

  /** What a process saves. */
  datatype Job = Job(rawCommP: Bytes, carSize: nat)

  function Apply(t: Table, job: Job): Table {
    t[job.rawCommP := job.carSize]
  }

  /** The file after a save that nothing goes wrong in. */
  function AfterSave(disk: Disk, job: Job): Disk {
    Stored(Apply(Load(disk), job))
  }

  /** How the writing of the file goes; a failure is not reported. */
  datatype WriteOutcome = NotOpened | NotEncoded | Encoded

  /** The table file, as the process that holds the lock sees it. */
  class CommPFile {
    var disk: Disk

    constructor ()
      ensures disk == Missing
    {
      disk := Missing;
    }

    /**
     Everything saved before stays, and the new entry is in, once the lock is taken and the file can be
     written. Only a missing lock is reported.
     */
    method SaveCommP(rawCommP: Bytes, carSize: nat, locked: bool, write: WriteOutcome) returns (r: Result<()>)
      modifies this
      ensures r.Ok? <==> locked
      ensures !locked || write == NotOpened ==> disk == old(disk)
      ensures locked && write == NotEncoded ==> disk == Emptied
      ensures locked && write == Encoded ==> disk == AfterSave(old(disk), Job(rawCommP, carSize))
      ensures locked && write == Encoded ==>
        && disk.Stored? && rawCommP in disk.table && disk.table[rawCommP] == carSize
        && disk.table - {rawCommP} == (if old(disk).Stored? then old(disk).table - {rawCommP} else map[])
    {
      if !locked {
        return Err("Lock Error");
      }
      var commp := Load(disk);
      commp := commp[rawCommP := carSize];
      if write != NotOpened {
        disk := Emptied;
        if write == Encoded {
          disk := Stored(commp);
        }
      }
      return Ok(());
    }
  }

  /** How far a process has come, with the table it holds in memory. */
  datatype Phase =
    | Waiting
    | Locked
    | Loaded(table: Table)
    | Updated(table: Table)
    | Emptying(table: Table)
    | Written
    | Done

  /** Processes are numbered; jobs[p] is what process p saves. `order` records who took the lock when. */
  datatype State = State(disk: Disk, holder: Option<nat>, phases: seq<Phase>, order: seq<nat>)

  predicate Init(s: State, jobs: seq<Job>) {
    && !s.disk.Emptied? && s.holder == None && s.order == []
    && |s.phases| == |jobs|
    && forall p :: 0 <= p < |s.phases| ==> s.phases[p] == Waiting
  }

  /** One step of process p. */
  predicate Step(s: State, s': State, jobs: seq<Job>, p: nat)
    requires |s.phases| == |jobs| && p < |jobs|
  {
    match s.phases[p]
    case Waiting =>
      && s.holder == None
      && s' == s.(holder := Some(p), phases := s.phases[p := Locked], order := s.order + [p])
    case Locked =>
      s' == s.(phases := s.phases[p := Loaded(Load(s.disk))])
    case Loaded(t) =>
      s' == s.(phases := s.phases[p := Updated(Apply(t, jobs[p]))])
    case Updated(t) =>
      s' == s.(disk := Emptied, phases := s.phases[p := Emptying(t)])
    case Emptying(t) =>
      s' == s.(disk := Stored(t), phases := s.phases[p := Written])
    case Written =>
      s' == s.(holder := None, phases := s.phases[p := Done])
    case Done =>
      false
  }

  /** A process that finds the lock free and takes its steps in a row does what SaveCommP does. */
  lemma SaveIsSixSteps(run: seq<State>, jobs: seq<Job>, p: nat)
    requires |run| == 7 && p < |jobs| && forall i :: 0 <= i < 7 ==> |run[i].phases| == |jobs|
    requires run[0].phases[p] == Waiting && forall i :: 0 <= i < 6 ==> Step(run[i], run[i + 1], jobs, p)
    ensures run[6].disk == AfterSave(run[0].disk, jobs[p])
    ensures run[6].phases[p] == Done && run[6].holder == None
  {
    assert Step(run[0], run[0 + 1], jobs, p);
    assert Step(run[1], run[1 + 1], jobs, p);
    assert Step(run[2], run[2 + 1], jobs, p);
    assert Step(run[3], run[3 + 1], jobs, p);
    assert Step(run[4], run[4 + 1], jobs, p);
    assert Step(run[5], run[5 + 1], jobs, p);
  }

  /** The saves of the listed processes, applied one after the other. */
  function Saved(t: Table, jobs: seq<Job>, order: seq<nat>): Table
    requires forall i :: 0 <= i < |order| ==> order[i] < |jobs|
  {
    if |order| == 0 then t
    else Apply(Saved(t, jobs, order[..|order| - 1]), jobs[order[|order| - 1]])
  }

  predicate Inside(phase: Phase) {
    !phase.Waiting? && !phase.Done?
  }

  /** The processes whose save is in the file: all that took the lock, but not one that has yet to write. */
  function Completed(s: State): seq<nat> {
    if s.holder.Some? && s.holder.value < |s.phases| && !s.phases[s.holder.value].Written? && |s.order| > 0
    then s.order[..|s.order| - 1]
    else s.order
  }

  ghost predicate WellFormed(s: State, jobs: seq<Job>) {
    && |s.phases| == |jobs|
    && (forall i :: 0 <= i < |s.order| ==> s.order[i] < |jobs|)
    && Distinct(s.order)
    && (forall p :: 0 <= p < |jobs| ==> (Inside(s.phases[p]) <==> s.holder == Some(p)))
    && (forall p :: 0 <= p < |jobs| ==> (p in s.order <==> !s.phases[p].Waiting?))
    && (s.holder.Some? ==> s.holder.value < |jobs| && |s.order| > 0 && s.order[|s.order| - 1] == s.holder.value)
  }

  /** What is in the file and in the memory of the process that holds the lock. */
  ghost predicate Consistent(s: State, jobs: seq<Job>, t0: Table)
    requires WellFormed(s, jobs)
  {
    var saved := Saved(t0, jobs, Completed(s));
    if s.holder == None then !s.disk.Emptied? && Load(s.disk) == saved
    else
      var p := s.holder.value;
      match s.phases[p]
      case Waiting => false
      case Done => false
      case Locked => !s.disk.Emptied? && Load(s.disk) == saved
      case Loaded(t) => !s.disk.Emptied? && Load(s.disk) == saved && t == saved
      case Updated(t) => !s.disk.Emptied? && Load(s.disk) == saved && t == Apply(saved, jobs[p])
      case Emptying(t) => t == Apply(saved, jobs[p])
      case Written => !s.disk.Emptied? && Load(s.disk) == saved
  }

  ghost predicate Inv(s: State, jobs: seq<Job>, t0: Table) {
    WellFormed(s, jobs) && Consistent(s, jobs, t0)
  }

  lemma StepKeepsShape(s: State, s': State, jobs: seq<Job>, p: nat)
    requires WellFormed(s, jobs) && p < |jobs| && Step(s, s', jobs, p)
    ensures WellFormed(s', jobs)
  {
  }

  lemma StepKeepsTable(s: State, s': State, jobs: seq<Job>, t0: Table, p: nat)
    requires Inv(s, jobs, t0) && WellFormed(s', jobs) && p < |jobs| && Step(s, s', jobs, p)
    ensures Consistent(s', jobs, t0)
  {
  }

  ghost predicate Follows(s: State, s': State, jobs: seq<Job>)
    requires |s.phases| == |jobs|
  {
    exists p :: 0 <= p < |jobs| && Step(s, s', jobs, p)
  }

  /** A run: each state follows from the one before by a step of some process. */
  ghost predicate IsRun(run: seq<State>, jobs: seq<Job>)
  {
    && |run| > 0 && Init(run[0], jobs)
    && (forall i :: 0 <= i < |run| ==> |run[i].phases| == |jobs|)
    && forall i :: 0 <= i < |run| - 1 ==> Follows(run[i], run[i + 1], jobs)
  }

  lemma {:induction false} RunKeepsInv(run: seq<State>, jobs: seq<Job>, n: nat)
    requires IsRun(run, jobs) && n < |run|
    ensures Inv(run[n], jobs, Load(run[0].disk))
  {
    var t0 := Load(run[0].disk);
    if n == 0 {
      assert Completed(run[0]) == [];
    } else {
      RunKeepsInv(run, jobs, n - 1);
      assert Follows(run[n - 1], run[n - 1 + 1], jobs);
      var p :| 0 <= p < |jobs| && Step(run[n - 1], run[n], jobs, p);
      StepKeepsShape(run[n - 1], run[n], jobs, p);
      StepKeepsTable(run[n - 1], run[n], jobs, t0, p);
    }
  }

  /**
   No save is lost: in every interleaving, whenever nobody holds the lock the file holds the saves of
   exactly the processes that have finished, applied in the order in which they took the lock.
   */
  lemma NoLostSave(run: seq<State>, jobs: seq<Job>, n: nat)
    requires IsRun(run, jobs) && n < |run| && run[n].holder == None
    ensures forall i :: 0 <= i < |run[n].order| ==> run[n].order[i] < |jobs|
    ensures Load(run[n].disk) == Saved(Load(run[0].disk), jobs, run[n].order)
    ensures Distinct(run[n].order)
    ensures forall p :: 0 <= p < |jobs| ==> (p in run[n].order <==> run[n].phases[p] == Done)
  {
    RunKeepsInv(run, jobs, n);
    forall p | 0 <= p < |jobs|
      ensures p in run[n].order <==> run[n].phases[p] == Done
    {
      assert !Inside(run[n].phases[p]);
    }
  }

  /** A commitment that nobody saves keeps what it had. */
  lemma {:induction false} UnsavedEntry(t: Table, jobs: seq<Job>, order: seq<nat>, c: Bytes)
    requires forall k :: 0 <= k < |order| ==> order[k] < |jobs| && jobs[order[k]].rawCommP != c
    ensures c in Saved(t, jobs, order) <==> c in t
    ensures c in t ==> Saved(t, jobs, order)[c] == t[c]
  {
    if |order| > 0 {
      UnsavedEntry(t, jobs, order[..|order| - 1], c);
    }
  }

  /** Save i, in lock order, is the last of its commitment. */
  ghost predicate IsLastSave(jobs: seq<Job>, order: seq<nat>, i: nat)
    requires i < |order| && forall k :: 0 <= k < |order| ==> order[k] < |jobs|
  {
    forall k :: i < k < |order| ==> jobs[order[k]].rawCommP != jobs[order[i]].rawCommP
  }

  /** The last save of a commitment is the one in the table. */
  lemma {:induction false} SavedEntry(t: Table, jobs: seq<Job>, order: seq<nat>, i: nat)
    requires forall k :: 0 <= k < |order| ==> order[k] < |jobs|
    requires i < |order| && IsLastSave(jobs, order, i)
    ensures jobs[order[i]].rawCommP in Saved(t, jobs, order)
    ensures Saved(t, jobs, order)[jobs[order[i]].rawCommP] == jobs[order[i]].carSize
    decreases |order|
  {
    var n := |order| - 1;
    if i < n {
      assert jobs[order[n]].rawCommP != jobs[order[i]].rawCommP;
      assert IsLastSave(jobs, order[..n], i);
      SavedEntry(t, jobs, order[..n], i);
    }
  }

  /** Every saved commitment is in the table. */
  lemma {:induction false} SavedKeys(t: Table, jobs: seq<Job>, order: seq<nat>, i: nat)
    requires forall k :: 0 <= k < |order| ==> order[k] < |jobs|
    requires i < |order|
    ensures jobs[order[i]].rawCommP in Saved(t, jobs, order)
  {
    var n := |order| - 1;
    if i < n {
      SavedKeys(t, jobs, order[..n], i);
    }
  }
}
