/**
  Compost cycles and waste logs.  Transactions interleave: the friendly pre-check, the
  flush that the partial unique index guards, and the commit are separate steps.
 */
module Cycles {
  import opened Prelude

  datatype Status = Active | Curing | Completed

  datatype Cycle = Cycle(device: nat, status: Status, endedAt: Option<int>)

  datatype Patch = Patch(status: Option<Status>, endedAt: Option<int>)

  /** The columns an UPDATE writes; an end time is never written as null. */
  datatype Change = Change(status: Option<Status>, endedAt: Option<int>)

  datatype Log = Log(device: nat, cycle: Option<nat>)

  datatype Transaction =
    | Checked(device: nat)
    | Inserted(id: nat, device: nat)
    | Loaded(id: nat, snapshot: Cycle, patch: Patch)
    | Updated(id: nat, change: Change)
    | Picked(device: nat, cycle: Option<nat>)

  /** Committed rows, committed logs, and the transactions in flight. */
  datatype State = State(cycles: map<nat, Cycle>, logs: seq<Log>, open: map<nat, Transaction>)

  // ---------------------------------------------------------------- the cycle object

  /** What a PATCH makes of the row it loaded. */
  function Patched(row: Cycle, patch: Patch, now: int): (r: Cycle)
    ensures r.device == row.device
    ensures row.endedAt.Some? ==> r.endedAt.Some?
    ensures r.status == if patch.status.Some? then patch.status.value else row.status
    ensures patch.endedAt.Some? ==> r.endedAt == patch.endedAt
    ensures patch.endedAt.None? && row.endedAt.Some? ==> r.endedAt == row.endedAt
    ensures patch.endedAt.None? && row.endedAt.None? ==>
              r.endedAt == if row.status != Completed && patch.status == Some(Completed) then Some(now) else None
  {
    var ended := if patch.endedAt.Some? then patch.endedAt else row.endedAt;
    if patch.status.Some? && patch.status.value != row.status then
      Cycle(row.device, patch.status.value,
            if patch.status.value.Completed? && ended.None? then Some(now) else ended)
    else
      row.(endedAt := ended)
  }

  class CompostCycle {
    const device: nat
    var status: Status
    var endedAt: Option<int>

    function Contents(): Cycle
      reads this
    {
      Cycle(device, status, endedAt)
    }

    constructor (row: Cycle)
      ensures Contents() == row
    {
      device, status, endedAt := row.device, row.status, row.endedAt;
    }

    method Update(patch: Patch, now: int)
      modifies this
      ensures Contents() == Patched(old(Contents()), patch, now)
    {
      if patch.endedAt.Some? {
        endedAt := patch.endedAt;
      }
      if patch.status.Some? && patch.status.value != status {
        status := patch.status.value;
        if status.Completed? && endedAt.None? {
          endedAt := if patch.endedAt.Some? then patch.endedAt else Some(now);
        }
      }
    }
  }

  /** The flush writes the columns that differ from the loaded row. */
  function ChangeOf(snapshot: Cycle, row: Cycle): Change {
    Change(if row.status != snapshot.status then Some(row.status) else None,
           if row.endedAt != snapshot.endedAt then row.endedAt else None)
  }

  function Write(row: Cycle, change: Change): Cycle {
    Cycle(row.device,
          if change.status.Some? then change.status.value else row.status,
          if change.endedAt.Some? then change.endedAt else row.endedAt)
  }

  predicate Reactivates(row: Cycle, patch: Patch, now: int) {
    ChangeOf(row, Patched(row, patch, now)).status == Some(Active)
  }

  /** Writing its changed columns over the row it loaded yields the patched row. */
  lemma WriteIsPatch(row: Cycle, patch: Patch, now: int)
    ensures Write(row, ChangeOf(row, Patched(row, patch, now))) == Patched(row, patch, now)
  {
  }

  // ---------------------------------------------------------------- steps

  predicate IsActive(cycles: map<nat, Cycle>, device: nat, id: nat) {
    id in cycles && cycles[id].device == device && cycles[id].status.Active?
  }

  predicate HasActive(cycles: map<nat, Cycle>, device: nat) {
    exists id :: id in cycles && IsActive(cycles, device, id)
  }

  /** The row the single-row lookup of the active cycle finds. */
  ghost function ActiveCycle(cycles: map<nat, Cycle>, device: nat): Option<nat> {
    if HasActive(cycles, device) then
      var id :| id in cycles && IsActive(cycles, device, id);
      Some(id)
    else None
  }

  /** A transaction in flight has written the row as active. */
  predicate Claims(s: State, t: nat, device: nat, id: nat) {
    && t in s.open
    && match s.open[t]
       case Inserted(i, d) => i == id && d == device
       case Updated(i, change) =>
         i == id && change.status == Some(Active) && i in s.cycles && s.cycles[i].device == device
       case _ => false
  }

  /** The index holds an entry for the row: it is committed as active, or written so in flight. */
  ghost predicate Indexed(s: State, device: nat, id: nat) {
    IsActive(s.cycles, device, id) || exists t :: Claims(s, t, device, id)
  }

  /** The unique index lets the write through; otherwise it waits for the other entry, or fails. */
  ghost predicate IndexAdmits(s: State, device: nat, id: nat) {
    forall other :: Indexed(s, device, other) ==> other == id
  }

  predicate RowLocked(s: State, id: nat) {
    exists t :: t in s.open && s.open[t].Updated? && s.open[t].id == id
  }

  predicate IdTaken(s: State, id: nat) {
    id in s.cycles || exists t :: t in s.open && s.open[t].Inserted? && s.open[t].id == id
  }

  datatype Step =
    | CreateCheck(t: nat, device: nat)
    | CreateFlush(t: nat, id: nat)
    | PatchLoad(t: nat, id: nat, patch: Patch)
    | PatchFlush(t: nat, now: int)
    | WasteNamed(t: nat, device: nat, id: nat)
    | WasteDefault(t: nat, device: nat)
    | Commit(t: nat)
    | Abort(t: nat)

  ghost predicate Enabled(s: State, step: Step) {
    match step
    case CreateCheck(t, device) => t !in s.open && !HasActive(s.cycles, device)
    case CreateFlush(t, id) =>
      t in s.open && s.open[t].Checked? && !IdTaken(s, id) && IndexAdmits(s, s.open[t].device, id)
    case PatchLoad(t, id, _) => t !in s.open && id in s.cycles
    case PatchFlush(t, now) =>
      && t in s.open && s.open[t].Loaded? && !RowLocked(s, s.open[t].id)
      && (Reactivates(s.open[t].snapshot, s.open[t].patch, now) ==>
            IndexAdmits(s, s.open[t].snapshot.device, s.open[t].id))
    case WasteNamed(t, device, id) => t !in s.open && id in s.cycles && s.cycles[id].device == device
    case WasteDefault(t, _) => t !in s.open
    case Commit(t) =>
      && t in s.open
      && (s.open[t].Inserted? || s.open[t].Picked? || (s.open[t].Updated? && s.open[t].id in s.cycles))
    case Abort(t) => t in s.open
  }

  ghost function Apply(s: State, step: Step): State
    requires Enabled(s, step)
  {
    match step
    case CreateCheck(t, device) => s.(open := s.open[t := Checked(device)])
    case CreateFlush(t, id) => s.(open := s.open[t := Inserted(id, s.open[t].device)])
    case PatchLoad(t, id, patch) => s.(open := s.open[t := Loaded(id, s.cycles[id], patch)])
    case PatchFlush(t, now) =>
      var snapshot := s.open[t].snapshot;
      s.(open := s.open[t := Updated(s.open[t].id, ChangeOf(snapshot, Patched(snapshot, s.open[t].patch, now)))])
    case WasteNamed(t, device, id) => s.(open := s.open[t := Picked(device, Some(id))])
    case WasteDefault(t, device) => s.(open := s.open[t := Picked(device, ActiveCycle(s.cycles, device))])
    case Commit(t) =>
      (match s.open[t]
       case Inserted(id, device) => State(s.cycles[id := Cycle(device, Active, None)], s.logs, s.open - {t})
       case Updated(id, change) => State(s.cycles[id := Write(s.cycles[id], change)], s.logs, s.open - {t})
       case Picked(device, cycle) => State(s.cycles, s.logs + [Log(device, cycle)], s.open - {t})
       case _ => s)
    case Abort(t) => s.(open := s.open - {t})
  }

  ghost predicate Runs(s: State, steps: seq<Step>, t: State)
    decreases |steps|
  {
    if steps == [] then s == t else Enabled(s, steps[0]) && Runs(Apply(s, steps[0]), steps[1..], t)
  }

  function Empty(): State {
    State(map[], [], map[])
  }

  // ---------------------------------------------------------------- one active cycle

  /** The partial unique index, with the entries in flight. */
  ghost predicate OneEntry(s: State) {
    forall device, a, b :: Indexed(s, device, a) && Indexed(s, device, b) ==> a == b
  }

  /** Insert ids are new and differ; updates are of committed rows. */
  ghost predicate Distinct(s: State) {
    && (forall t :: t in s.open && s.open[t].Inserted? ==> s.open[t].id !in s.cycles)
    && (forall t, u :: t in s.open && u in s.open && t != u && s.open[t].Inserted? && s.open[u].Inserted?
          ==> s.open[t].id != s.open[u].id)
    && (forall t :: t in s.open && s.open[t].Updated? ==> s.open[t].id in s.cycles)
    && (forall t :: t in s.open && s.open[t].Loaded? ==>
          s.open[t].id in s.cycles && s.cycles[s.open[t].id].device == s.open[t].snapshot.device)
  }

  /** The row a flush writes. */
  function FlushedId(s: State, step: Step): Option<nat> {
    match step
    case CreateFlush(t, id) => Some(id)
    case PatchFlush(t, _) => if t in s.open && s.open[t].Loaded? then Some(s.open[t].id) else None
    case _ => None
  }

  /** No step makes an index entry but a flush that the index admits. */
  lemma EntriesOnlyByFlush(s: State, step: Step, device: nat, id: nat)
    requires Distinct(s) && Enabled(s, step) && Indexed(Apply(s, step), device, id)
    ensures Indexed(s, device, id) || (FlushedId(s, step) == Some(id) && IndexAdmits(s, device, id))
  {
    var u := Apply(s, step);
    if IsActive(u.cycles, device, id) {
      if !IsActive(s.cycles, device, id) {
        assert step.Commit? && Claims(s, step.t, device, id);
      }
    } else {
      var t :| Claims(u, t, device, id);
      if !Claims(s, t, device, id) {
        assert step.t == t;
      }
    }
  }

  lemma OneEntryStep(s: State, step: Step)
    requires OneEntry(s) && Distinct(s) && Enabled(s, step)
    ensures OneEntry(Apply(s, step))
  {
    var u := Apply(s, step);
    forall device, a, b | Indexed(u, device, a) && Indexed(u, device, b)
      ensures a == b
    {
      EntriesOnlyByFlush(s, step, device, a);
      EntriesOnlyByFlush(s, step, device, b);
    }
  }

  lemma DistinctStep(s: State, step: Step)
    requires Distinct(s) && Enabled(s, step)
    ensures Distinct(Apply(s, step))
  {
  }

  // ---------------------------------------------------------------- what a PATCH does to a run

  /**
    A PATCH in any interleaving: what its flush wrote, after whatever others have done to
    the row, gives it at the commit the status requested, when that differs from the
    status it was loaded with, and otherwise the one it has; and the end time likewise.
   */
  lemma PatchCommits(u: State, t: nat, now: int, s: State)
    requires Enabled(u, PatchFlush(t, now)) && Enabled(s, Commit(t))
    requires s.open[t] == Apply(u, PatchFlush(t, now)).open[t]
    ensures var loaded, id, patch := u.open[t].snapshot, u.open[t].id, u.open[t].patch;
            var row, after := s.cycles[id], Apply(s, Commit(t)).cycles;
            && after == s.cycles[id := after[id]]
            && after[id].device == row.device
            && after[id].status == (if patch.status.Some? && patch.status.value != loaded.status
                                    then patch.status.value else row.status)
            && after[id].endedAt == (if patch.endedAt.Some? && patch.endedAt != loaded.endedAt then patch.endedAt
                                     else if patch.endedAt.None? && loaded.endedAt.None? && loaded.status != Completed
                                             && patch.status == Some(Completed) then Some(now)
                                     else row.endedAt)
  {
  }

  /** When the one active cycle of a device stops being active, the device has none. */
  lemma OnlyActiveLeaves(cycles: map<nat, Cycle>, device: nat, id: nat, row: Cycle)
    requires forall a, b :: IsActive(cycles, device, a) && IsActive(cycles, device, b) ==> a == b
    requires IsActive(cycles, device, id) && row.status != Active
    ensures !HasActive(cycles[id := row], device)
  {
    var after := cycles[id := row];
    forall other | other in after
      ensures !IsActive(after, device, other)
    {
      assert IsActive(after, device, other) ==> IsActive(cycles, device, other);
    }
  }

  /** A PATCH to curing or completed of the active cycle, once committed, frees the device. */
  lemma EndingFreesDevice(s: State, t: nat, id: nat, change: Change, other: nat)
    requires OneEntry(s) && t in s.open && s.open[t] == Updated(id, change) && id in s.cycles
    requires s.cycles[id].status == Active && change.status in {Some(Curing), Some(Completed)}
    ensures !HasActive(Apply(s, Commit(t)).cycles, s.cycles[id].device)
    ensures other !in s.open ==> Enabled(Apply(s, Commit(t)), CreateCheck(other, s.cycles[id].device))
  {
    ActiveIsUnique(s, s.cycles[id].device);
    OnlyActiveLeaves(s.cycles, s.cycles[id].device, id, Write(s.cycles[id], change));
  }

  // ---------------------------------------------------------------- end times and logs

  /** A completed cycle has an end time, now and after every commit to come. */
  ghost predicate Ended(s: State) {
    && (forall id :: id in s.cycles && s.cycles[id].status.Completed? ==> s.cycles[id].endedAt.Some?)
    && (forall t :: t in s.open && s.open[t].Loaded? && s.open[t].id in s.cycles ==>
          (s.open[t].snapshot.status.Completed? || s.open[t].snapshot.endedAt.Some?) ==>
            s.cycles[s.open[t].id].endedAt.Some?)
    && (forall t :: t in s.open && s.open[t].Updated? && s.open[t].id in s.cycles
                      && s.open[t].change.status == Some(Completed) ==>
          s.open[t].change.endedAt.Some? || s.cycles[s.open[t].id].endedAt.Some?)
  }

  /** A log that names a cycle names one of its own device. */
  ghost predicate Attributed(s: State) {
    && (forall i :: 0 <= i < |s.logs| && s.logs[i].cycle.Some? ==>
          s.logs[i].cycle.value in s.cycles && s.cycles[s.logs[i].cycle.value].device == s.logs[i].device)
    && (forall t :: t in s.open && s.open[t].Picked? && s.open[t].cycle.Some? ==>
          s.open[t].cycle.value in s.cycles && s.cycles[s.open[t].cycle.value].device == s.open[t].device)
  }

  /** Rows and logs stay, a row keeps its device, and an end time once set is never cleared. */
  predicate Keeps(s: State, t: State) {
    && s.logs <= t.logs
    && forall id :: id in s.cycles ==>
         && id in t.cycles
         && t.cycles[id].device == s.cycles[id].device
         && (s.cycles[id].endedAt.Some? ==> t.cycles[id].endedAt.Some?)
  }

  lemma KeepsStep(s: State, step: Step)
    requires Distinct(s) && Enabled(s, step)
    ensures Keeps(s, Apply(s, step))
  {
  }

  lemma EndedStep(s: State, step: Step)
    requires Distinct(s) && Ended(s) && Enabled(s, step)
    ensures Ended(Apply(s, step))
  {
    KeepsStep(s, step);
    DistinctStep(s, step);
  }

  lemma AttributedStep(s: State, step: Step)
    requires Distinct(s) && Attributed(s) && Enabled(s, step)
    ensures Attributed(Apply(s, step))
  {
    KeepsStep(s, step);
  }

  ghost predicate Inv(s: State) {
    OneEntry(s) && Distinct(s) && Ended(s) && Attributed(s)
  }

  lemma {:induction false} InvRun(s: State, steps: seq<Step>, t: State)
    requires Inv(s) && Runs(s, steps, t)
    ensures Inv(t) && Keeps(s, t)
    decreases |steps|
  {
    if steps != [] {
      OneEntryStep(s, steps[0]);
      DistinctStep(s, steps[0]);
      EndedStep(s, steps[0]);
      AttributedStep(s, steps[0]);
      KeepsStep(s, steps[0]);
      InvRun(Apply(s, steps[0]), steps[1..], t);
    }
  }

  /**
    In every interleaving no device has two committed active cycles, so the single-row
    lookup of the active cycle is well defined: it finds the one there is.
   */
  lemma OneActiveCycle(steps: seq<Step>, s: State, device: nat)
    requires Runs(Empty(), steps, s)
    ensures forall a, b |
              && a in s.cycles && s.cycles[a].device == device && s.cycles[a].status == Active
              && b in s.cycles && s.cycles[b].device == device && s.cycles[b].status == Active :: a == b
    ensures forall id | id in s.cycles && s.cycles[id].device == device ::
              ActiveCycle(s.cycles, device) == Some(id) <==> s.cycles[id].status == Active
    ensures ActiveCycle(s.cycles, device).Some? ==>
              var id := ActiveCycle(s.cycles, device).value;
              id in s.cycles && s.cycles[id].device == device
  {
    InvRun(Empty(), steps, s);
    ActiveIsUnique(s, device);
    assert forall id | id in s.cycles && s.cycles[id].device == device ::
             IsActive(s.cycles, device, id) <==> s.cycles[id].status == Active;
  }

  /** Over all runs a completed cycle has ended, and an end time once set is never cleared. */
  lemma CompletedCyclesEnded(steps: seq<Step>, s: State, more: seq<Step>, t: State)
    requires Runs(Empty(), steps, s) && Runs(s, more, t)
    ensures forall id :: id in t.cycles && t.cycles[id].status.Completed? ==> t.cycles[id].endedAt.Some?
    ensures forall id :: id in s.cycles && s.cycles[id].endedAt.Some? ==> id in t.cycles && t.cycles[id].endedAt.Some?
  {
    InvRun(Empty(), steps, s);
    InvRun(s, more, t);
  }

  // ---------------------------------------------------------------- listings

  /** The positions of the device's logs, of those of one cycle, and of those of none. */
  function LogsOf(logs: seq<Log>, device: nat): set<int> {
    set i | 0 <= i < |logs| && logs[i].device == device
  }

  function ListingOf(logs: seq<Log>, device: nat, cycle: nat): set<int> {
    set i | 0 <= i < |logs| && logs[i].device == device && logs[i].cycle == Some(cycle)
  }

  function Unattributed(logs: seq<Log>, device: nat): set<int> {
    set i | 0 <= i < |logs| && logs[i].device == device && logs[i].cycle.None?
  }

  function CyclesOf(cycles: map<nat, Cycle>, device: nat): set<nat> {
    set id | id in cycles && cycles[id].device == device
  }

  function Listings(s: State, device: nat): set<int> {
    set id, i | id in CyclesOf(s.cycles, device) && i in ListingOf(s.logs, device, id) :: i
  }

  /** A device's logs are the disjoint union of its per-cycle listings and its unattributed ones. */
  lemma LogsPartition(steps: seq<Step>, s: State, device: nat)
    requires Runs(Empty(), steps, s)
    ensures LogsOf(s.logs, device) == Unattributed(s.logs, device) + Listings(s, device)
    ensures Unattributed(s.logs, device) !! Listings(s, device)
    ensures forall a, b :: a != b ==> ListingOf(s.logs, device, a) !! ListingOf(s.logs, device, b)
    ensures forall id :: id in s.cycles && s.cycles[id].device != device ==> ListingOf(s.logs, device, id) == {}
  {
    InvRun(Empty(), steps, s);
    forall i | i in LogsOf(s.logs, device) && s.logs[i].cycle.Some?
      ensures i in Listings(s, device)
    {
      var id := s.logs[i].cycle.value;
      assert id in CyclesOf(s.cycles, device) && i in ListingOf(s.logs, device, id);
    }
  }

  // ---------------------------------------------------------------- uninterrupted requests

  datatype CycleError = NotFound | ActiveExists | WrongCycle | Failed

  /** The tables as one request at a time updates them, with the protocol state they stand for. */
  class CompostTables {
    var cycles: map<nat, Cycle>
    var logs: seq<Log>
    ghost var world: State

    ghost predicate Valid()
      reads this
    {
      world == State(cycles, logs, map[]) && Inv(world)
    }

    constructor ()
      ensures Valid() && world == Empty()
    {
      cycles, logs := map[], [];
      world := Empty();
    }

    method CreateCycle(device: nat, newId: nat, commitRaises: bool)
      returns (r: Result<nat, CycleError>, ghost steps: seq<Step>)
      requires Valid()
      modifies this
      ensures Valid() && Runs(old(world), steps, world) && logs == old(logs)
      ensures r.Ok? <==> r != Err(ActiveExists) && newId !in old(cycles) && !commitRaises
      ensures r == Err(ActiveExists)
         <==> exists id :: id in old(cycles) && old(cycles)[id].device == device && old(cycles)[id].status == Active
      ensures r.Ok? ==> r.value == newId && cycles == old(cycles)[newId := Cycle(device, Active, None)]
      ensures r.Err? ==> cycles == old(cycles)
    {
      steps := [];
      if HasActive(cycles, device) {
        return Err(ActiveExists), steps;
      }
      if newId in cycles || commitRaises {
        return Err(Failed), steps;
      }
      cycles := cycles[newId := Cycle(device, Active, None)];
      world, steps := CreateIsARun(world, device, newId);
      r := Ok(newId);
    }

    method UpdateCycle(id: nat, patch: Patch, now: int, commitRaises: bool)
      returns (r: Result<Cycle, CycleError>, ghost steps: seq<Step>)
      requires Valid()
      modifies this
      ensures Valid() && Runs(old(world), steps, world) && logs == old(logs)
      ensures r.Ok? ==> id in old(cycles) && r.value == Patched(old(cycles)[id], patch, now)
      ensures r.Ok? ==> cycles == old(cycles)[id := r.value]
      ensures r.Ok? ==> r.value.device == old(cycles)[id].device
      ensures r.Ok? ==> r.value.status == if patch.status.Some? then patch.status.value else old(cycles)[id].status
      ensures r.Ok? ==> r.value.endedAt ==
                          if patch.endedAt.Some? then patch.endedAt
                          else if old(cycles)[id].endedAt.Some? then old(cycles)[id].endedAt
                          else if old(cycles)[id].status != Completed && patch.status == Some(Completed) then Some(now)
                          else None
      ensures r.Ok? && old(cycles)[id].status == Active && patch.status in {Some(Curing), Some(Completed)} ==>
                forall other | other in cycles && cycles[other].device == r.value.device ::
                  cycles[other].status != Active
      ensures r.Err? ==> cycles == old(cycles)
      ensures r == Err(NotFound) <==> id !in old(cycles)
      ensures id in old(cycles) ==>
                var moves := patch.status == Some(Active) && old(cycles)[id].status != Active;
                var device := old(cycles)[id].device;
                (r.Ok? <==> !commitRaises && (moves ==>
                   forall other | other in old(cycles) && old(cycles)[other].device == device ::
                     old(cycles)[other].status != Active))
    {
      steps := [];
      if id !in cycles {
        return Err(NotFound), steps;
      }
      var loaded := cycles[id];
      var cycle := new CompostCycle(loaded);
      cycle.Update(patch, now);
      var row := Cycle(cycle.device, cycle.status, cycle.endedAt);
      if row.status.Active? && !loaded.status.Active? && HasActive(cycles, row.device) {
        return Err(Failed), steps;
      }
      if commitRaises {
        return Err(Failed), steps;
      }
      ActiveIsUnique(world, row.device);
      if loaded.status == Active && row.status != Active {
        OnlyActiveLeaves(cycles, row.device, id, row);
      }
      cycles := cycles[id := row];
      world, steps := PatchIsARun(world, id, patch, now);
      r := Ok(row);
    }

    method CreateWasteLog(device: nat, given: Option<nat>, commitRaises: bool)
      returns (r: Result<Log, CycleError>, ghost steps: seq<Step>)
      requires Valid()
      modifies this
      ensures Valid() && Runs(old(world), steps, world) && cycles == old(cycles)
      ensures r.Ok? ==> logs == old(logs) + [r.value]
      ensures r.Ok? ==> r.value == Log(device, if given.Some? then given else ActiveCycle(cycles, device))
      ensures r.Ok? && given.None? ==>
                forall id | id in cycles && cycles[id].device == device ::
                  r.value.cycle == Some(id) <==> cycles[id].status == Active
      ensures r.Ok? && r.value.cycle.Some? ==>
                r.value.cycle.value in cycles && cycles[r.value.cycle.value].device == device
      ensures r.Err? ==> logs == old(logs)
      ensures r.Ok? <==> !commitRaises
                         && (given.Some? ==> given.value in cycles && cycles[given.value].device == device)
      ensures r == Err(WrongCycle) <==> given.Some? && !(given.value in cycles && cycles[given.value].device == device)
    {
      steps := [];
      var chosen := given;
      if given.Some? {
        if given.value !in cycles || cycles[given.value].device != device {
          return Err(WrongCycle), steps;
        }
      } else if HasActive(cycles, device) {
        var active :| active in cycles && IsActive(cycles, device, active);
        chosen := Some(active);
        assert ActiveCycle(cycles, device) == chosen by {
          ActiveIsUnique(world, device);
        }
      }
      if commitRaises {
        return Err(Failed), steps;
      }
      ActiveIsUnique(world, device);
      assert forall id | id in cycles && cycles[id].device == device ::
               IsActive(cycles, device, id) <==> cycles[id].status == Active;
      logs := logs + [Log(device, chosen)];
      world, steps := WasteIsARun(world, device, given);
      r := Ok(Log(device, chosen));
    }
  }

  lemma ActiveIsUnique(s: State, device: nat)
    requires OneEntry(s)
    ensures forall a, b :: IsActive(s.cycles, device, a) && IsActive(s.cycles, device, b) ==> a == b
  {
    forall a, b | IsActive(s.cycles, device, a) && IsActive(s.cycles, device, b)
      ensures a == b
    {
      assert Indexed(s, device, a) && Indexed(s, device, b);
    }
  }

  lemma {:induction false} RunsConcat(s: State, steps: seq<Step>, t: State, more: seq<Step>, u: State)
    requires Runs(s, steps, t) && Runs(t, more, u)
    ensures Runs(s, steps + more, u)
    decreases |steps|
  {
    if steps == [] {
      assert [] + more == more;
    } else {
      assert (steps + more)[1..] == steps[1..] + more;
      RunsConcat(Apply(s, steps[0]), steps[1..], t, more, u);
    }
  }

  lemma OneStep(s: State, steps: seq<Step>, t: State, step: Step) returns (longer: seq<Step>, u: State)
    requires Runs(s, steps, t) && Enabled(t, step)
    ensures longer == steps + [step] && u == Apply(t, step)
    ensures Runs(s, longer, u)
  {
    longer, u := steps + [step], Apply(t, step);
    assert Runs(u, [step][1..], u);
    RunsConcat(s, steps, t, [step], u);
  }

  lemma CreateIsARun(s: State, device: nat, id: nat) returns (t: State, steps: seq<Step>)
    requires Inv(s) && s.open == map[] && id !in s.cycles && !HasActive(s.cycles, device)
    ensures Runs(s, steps, t) && Inv(t)
    ensures t == State(s.cycles[id := Cycle(device, Active, None)], s.logs, map[])
  {
    steps, t := OneStep(s, [], s, CreateCheck(0, device));
    steps, t := OneStep(s, steps, t, CreateFlush(0, id));
    steps, t := OneStep(s, steps, t, Commit(0));
    InvRun(s, steps, t);
    assert t.open == map[];
  }

  lemma PatchIsARun(s: State, id: nat, patch: Patch, now: int) returns (t: State, steps: seq<Step>)
    requires Inv(s) && s.open == map[] && id in s.cycles
    requires Reactivates(s.cycles[id], patch, now) ==> !HasActive(s.cycles, s.cycles[id].device)
    ensures Runs(s, steps, t) && Inv(t)
    ensures t == State(s.cycles[id := Patched(s.cycles[id], patch, now)], s.logs, map[])
  {
    steps, t := OneStep(s, [], s, PatchLoad(0, id, patch));
    steps, t := OneStep(s, steps, t, PatchFlush(0, now));
    WriteIsPatch(s.cycles[id], patch, now);
    steps, t := OneStep(s, steps, t, Commit(0));
    InvRun(s, steps, t);
    assert t.open == map[];
  }

  lemma WasteIsARun(s: State, device: nat, given: Option<nat>) returns (t: State, steps: seq<Step>)
    requires Inv(s) && s.open == map[]
    requires given.Some? ==> given.value in s.cycles && s.cycles[given.value].device == device
    ensures Runs(s, steps, t) && Inv(t)
    ensures var cycle := if given.Some? then given else ActiveCycle(s.cycles, device);
            t == State(s.cycles, s.logs + [Log(device, cycle)], map[])
  {
    steps, t := OneStep(s, [], s, if given.Some? then WasteNamed(0, device, given.value) else WasteDefault(0, device));
    steps, t := OneStep(s, steps, t, Commit(0));
    InvRun(s, steps, t);
    assert t.open == map[];
  }
}
