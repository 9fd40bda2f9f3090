/**
  The cached thresholds of one device against its configuration row: readers (GET,
  database read, SETEX, return), writers (select, flush, DELETE, commit) and the clock
  interleave freely.  `d` bounds the delay from a reader's database read to its SETEX
  and return; a reader that misses it never completes.
 */
module ThresholdCache {
  import opened Prelude
  import opened Redis
  import opened Thresholds

  const TTL: int := 300

  datatype Reader = Missed | Holding(table: Table, readAt: int, stored: bool)

  /** A PUT in progress: `snapshot` is the row its SELECT saw, `body` the request. */
  datatype Writer =
    | Selected(snapshot: Row, body: Columns)
    | Flushed(snapshot: Row, body: Columns)
    | Deleted(snapshot: Row, body: Columns)

  /** A committed row and the instant it became visible. */
  datatype Version = Version(row: Row, at: int)

  datatype Load = Load(table: Table, at: int)

  datatype State = State(
    now: int,
    cache: Option<Entry<Table>>,
    history: seq<Version>,
    failedReads: set<int>,
    readers: map<nat, Reader>,
    writers: map<nat, Writer>,
    loads: seq<Load>)
  {
    predicate Hit() {
      cache.Some? && cache.value.Alive(now)
    }

    function Current(): Row {
      if history == [] then None else history[|history| - 1].row
    }
  }

  function Initial(row: Row, now: int): State {
    State(now, None, [Version(row, now)], {}, map[], map[], [])
  }

  datatype Step =
    | Tick(to: int)
    | GetHit
    | GetMiss(r: nat)
    | GetFails(r: nat)
    | ReadRow(r: nat)
    | ReadFails(r: nat)
    | SetEx(r: nat)
    | Return(r: nat)
    | Select(w: nat, body: Columns)
    | Flush(w: nat)
    | Delete(w: nat)
    | Commit(w: nat)
    | Abort(w: nat)

  predicate RowLocked(s: State) {
    exists w :: w in s.writers && !s.writers[w].Selected?
  }

  predicate Timely(d: nat, s: State, r: nat) {
    r in s.readers && s.readers[r].Holding? && s.now - s.readers[r].readAt <= d
  }

  predicate Enabled(d: nat, s: State, step: Step) {
    match step
    case Tick(to) => s.now <= to
    case GetHit => s.Hit()
    case GetMiss(r) => !s.Hit() && r !in s.readers
    case GetFails(r) => r !in s.readers
    case ReadRow(r) => r in s.readers && s.readers[r].Missed?
    case ReadFails(r) => r in s.readers && s.readers[r].Missed?
    case SetEx(r) => Timely(d, s, r) && !s.readers[r].stored
    case Return(r) => Timely(d, s, r)
    case Select(w, body) => w !in s.writers
    // The flush waits for the row, and an insert fails once another row exists.
    case Flush(w) =>
      && w in s.writers && s.writers[w].Selected? && !RowLocked(s)
      && (s.writers[w].snapshot.None? ==> s.Current().None?)
    case Delete(w) => w in s.writers && s.writers[w].Flushed?
    case Commit(w) => w in s.writers && s.writers[w].Deleted?
    case Abort(w) => w in s.writers
  }

  /** An insert writes the body; an update writes the columns that differ from the snapshot. */
  function Written(snapshot: Row, body: Columns, current: Row): Columns {
    if snapshot.None? || current.None? then body else
      map key | key in KEYS && key in (if Changes(snapshot.value, body, key) then body else current.value)
        :: (if Changes(snapshot.value, body, key) then body else current.value)[key]
  }

  predicate Changes(snapshot: Columns, body: Columns, key: Key) {
    (key in snapshot) != (key in body) || (key in snapshot && snapshot[key] != body[key])
  }

  function Apply(d: nat, s: State, step: Step): State
    requires Enabled(d, s, step)
  {
    match step
    case Tick(to) => s.(now := to)
    case GetHit => s.(loads := s.loads + [Load(s.cache.value.value, s.now)])
    case GetMiss(r) => s.(readers := s.readers[r := Missed])
    case GetFails(r) => s.(readers := s.readers[r := Missed])
    case ReadRow(r) => s.(readers := s.readers[r := Holding(Effective(s.Current()), s.now, false)])
    case ReadFails(r) =>
      s.(readers := s.readers[r := Holding(Globals(), s.now, false)], failedReads := s.failedReads + {s.now})
    case SetEx(r) =>
      s.(readers := s.readers[r := s.readers[r].(stored := true)],
         cache := Some(Expiring(s.readers[r].table, s.now + TTL)))
    case Return(r) => s.(readers := s.readers - {r}, loads := s.loads + [Load(s.readers[r].table, s.now)])
    case Select(w, body) => s.(writers := s.writers[w := Selected(s.Current(), body)])
    case Flush(w) => s.(writers := s.writers[w := Flushed(s.writers[w].snapshot, s.writers[w].body)])
    case Delete(w) => s.(writers := s.writers[w := Deleted(s.writers[w].snapshot, s.writers[w].body)], cache := None)
    case Commit(w) =>
      var row := Some(Written(s.writers[w].snapshot, s.writers[w].body, s.Current()));
      s.(writers := s.writers - {w}, history := s.history + [Version(row, s.now)])
    case Abort(w) => s.(writers := s.writers - {w})
  }

  /** `steps` leads from `s` to `t`. */
  ghost predicate Runs(d: nat, s: State, steps: seq<Step>, t: State)
    decreases |steps|
  {
    if steps == [] then s == t else
      Enabled(d, s, steps[0]) && Runs(d, Apply(d, s, steps[0]), steps[1..], t)
  }

  // ---------------------------------------------------------------- bounded staleness

  /** Version `i` was the committed row at instant `at`. */
  predicate InEffect(history: seq<Version>, i: int, at: int) {
    && 0 <= i < |history|
    && history[i].at <= at
    && (i + 1 < |history| ==> at <= history[i + 1].at)
  }

  /** At instant `at` the database gave this table: its effective row, or globals from a failed read. */
  ghost predicate Sourced(s: State, table: Table, at: int) {
    || (exists i :: InEffect(s.history, i, at) && table == Effective(s.history[i].row))
    || (at in s.failedReads && table == Globals())
  }

  ghost predicate SourcedWithin(s: State, table: Table, from: int, to: int) {
    exists at :: from <= at <= to && Sourced(s, table, at)
  }

  predicate Chronological(s: State) {
    && |s.history| > 0
    && (forall i, j :: 0 <= i < j < |s.history| ==> s.history[i].at <= s.history[j].at)
    && (forall i :: 0 <= i < |s.history| ==> s.history[i].at <= s.now)
  }

  ghost predicate CacheInv(d: nat, s: State) {
    s.cache.Some? ==>
      && s.cache.value.Expiring?
      && s.cache.value.expiresAt - TTL <= s.now
      && SourcedWithin(s, s.cache.value.value, s.cache.value.expiresAt - TTL - d, s.cache.value.expiresAt - TTL)
  }

  ghost predicate ReadersInv(s: State) {
    forall r :: r in s.readers && s.readers[r].Holding? ==>
      s.readers[r].readAt <= s.now && Sourced(s, s.readers[r].table, s.readers[r].readAt)
  }

  ghost predicate LoadsInv(d: nat, s: State) {
    forall i :: 0 <= i < |s.loads| ==>
      s.loads[i].at <= s.now && SourcedWithin(s, s.loads[i].table, s.loads[i].at - TTL - d, s.loads[i].at)
  }

  ghost predicate Inv(d: nat, s: State) {
    Chronological(s) && CacheInv(d, s) && ReadersInv(s) && LoadsInv(d, s)
  }

  /** What every step does to the record of the past: it only adds to it, at the present. */
  predicate Later(s: State, t: State) {
    && s.now <= t.now
    && s.failedReads <= t.failedReads
    && s.history <= t.history
    && |t.history| <= |s.history| + 1
    && (|t.history| > |s.history| ==> s.now <= t.history[|s.history|].at <= t.now)
  }

  lemma SourceLasts(s: State, t: State, table: Table, at: int)
    requires Sourced(s, table, at) && at <= s.now && Later(s, t)
    ensures Sourced(t, table, at)
  {
    if i :| InEffect(s.history, i, at) && table == Effective(s.history[i].row) {
      assert t.history[i] == s.history[i];
      assert i + 1 < |s.history| ==> t.history[i + 1] == s.history[i + 1];
      assert InEffect(t.history, i, at);
    }
  }

  lemma WindowLasts(s: State, t: State, table: Table, from: int, to: int)
    requires SourcedWithin(s, table, from, to) && to <= s.now && Later(s, t)
    ensures SourcedWithin(t, table, from, to)
  {
    var at :| from <= at <= to && Sourced(s, table, at);
    SourceLasts(s, t, table, at);
  }

  lemma StepIsLater(d: nat, s: State, step: Step)
    requires Chronological(s) && Enabled(d, s, step)
    ensures Later(s, Apply(d, s, step)) && Chronological(Apply(d, s, step))
  {
  }

  lemma CacheStep(d: nat, s: State, step: Step)
    requires Inv(d, s) && Enabled(d, s, step)
    ensures CacheInv(d, Apply(d, s, step))
  {
    StepIsLater(d, s, step);
    var t := Apply(d, s, step);
    if step.SetEx? {
      SourceLasts(s, t, s.readers[step.r].table, s.readers[step.r].readAt);
    } else if !step.Delete? && s.cache.Some? {
      WindowLasts(s, t, s.cache.value.value, s.cache.value.expiresAt - TTL - d, s.cache.value.expiresAt - TTL);
    }
  }

  lemma ReadersStep(d: nat, s: State, step: Step)
    requires Inv(d, s) && Enabled(d, s, step)
    ensures ReadersInv(Apply(d, s, step))
  {
    StepIsLater(d, s, step);
    var t := Apply(d, s, step);
    forall r | r in t.readers && t.readers[r].Holding?
      ensures t.readers[r].readAt <= t.now && Sourced(t, t.readers[r].table, t.readers[r].readAt)
    {
      if r in s.readers && s.readers[r].Holding? {
        SourceLasts(s, t, s.readers[r].table, s.readers[r].readAt);
      } else if step.ReadRow? {
        assert InEffect(t.history, |t.history| - 1, t.now);
      }
    }
  }

  lemma LoadsStep(d: nat, s: State, step: Step)
    requires Inv(d, s) && Enabled(d, s, step)
    ensures LoadsInv(d, Apply(d, s, step))
  {
    StepIsLater(d, s, step);
    var t := Apply(d, s, step);
    forall i | 0 <= i < |t.loads|
      ensures t.loads[i].at <= t.now
      ensures SourcedWithin(t, t.loads[i].table, t.loads[i].at - TTL - d, t.loads[i].at)
    {
      if i < |s.loads| {
        WindowLasts(s, t, s.loads[i].table, s.loads[i].at - TTL - d, s.loads[i].at);
      } else if step.GetHit? {
        var expiry := s.cache.value.expiresAt;
        WindowLasts(s, t, s.cache.value.value, expiry - TTL - d, expiry - TTL);
        WidenWindow(t, s.cache.value.value, expiry - TTL - d, expiry - TTL, t.now - TTL - d, t.now);
      } else {
        SourceLasts(s, t, s.readers[step.r].table, s.readers[step.r].readAt);
      }
    }
  }

  lemma InvStep(d: nat, s: State, step: Step)
    requires Inv(d, s) && Enabled(d, s, step)
    ensures Inv(d, Apply(d, s, step))
  {
    StepIsLater(d, s, step);
    CacheStep(d, s, step);
    ReadersStep(d, s, step);
    LoadsStep(d, s, step);
  }

  lemma WidenWindow(s: State, table: Table, from: int, to: int, wideFrom: int, wideTo: int)
    requires SourcedWithin(s, table, from, to) && wideFrom <= from && to <= wideTo
    ensures SourcedWithin(s, table, wideFrom, wideTo)
  {
  }

  lemma {:induction false} InvRun(d: nat, s: State, steps: seq<Step>, t: State)
    requires Inv(d, s) && Runs(d, s, steps, t)
    ensures Inv(d, t)
    decreases |steps|
  {
    if steps != [] {
      InvStep(d, s, steps[0]);
      InvRun(d, Apply(d, s, steps[0]), steps[1..], t);
    }
  }

  /**
    In every interleaving, a table loaded at time t is the effective table of a row that
    was the committed one at some instant of [t - 300 - d, t], or the globals of a
    database read that failed in that window.
   */
  lemma BoundedStaleness(d: nat, row: Row, start: int, steps: seq<Step>, t: State)
    requires Runs(d, Initial(row, start), steps, t)
    ensures forall i :: 0 <= i < |t.loads| ==>
              SourcedWithin(t, t.loads[i].table, t.loads[i].at - 300 - d, t.loads[i].at)
  {
    InvRun(d, Initial(row, start), steps, t);
  }

  /** Between two commits one version is in effect. */
  lemma OnlyVersion(s: State, i: int, k: int, at: int)
    requires Chronological(s) && InEffect(s.history, i, at) && 0 <= k < |s.history|
    requires (k == 0 || s.history[k].at < at) && (k + 1 < |s.history| ==> at < s.history[k + 1].at)
    ensures i == k
  {
  }

  /**
    Once neither a commit nor a failed read falls in the window before a load, the load
    equals, key by key, what the configuration endpoint reports for the committed row.
   */
  lemma QuietLoadsConverge(d: nat, row: Row, start: int, steps: seq<Step>, t: State, load: int, k: int)
    requires Runs(d, Initial(row, start), steps, t)
    requires 0 <= load < |t.loads| && 0 <= k < |t.history|
    requires k == 0 || t.history[k].at < t.loads[load].at - 300 - d
    requires k + 1 < |t.history| ==> t.loads[load].at < t.history[k + 1].at
    requires forall at :: at in t.failedReads ==> !(t.loads[load].at - 300 - d <= at <= t.loads[load].at)
    ensures forall key: Key :: key in t.loads[load].table
              && t.loads[load].table[key] == Resolve(t.history[k].row, key)
  {
    InvRun(d, Initial(row, start), steps, t);
    var table, now := t.loads[load].table, t.loads[load].at;
    var at :| now - 300 - d <= at <= now && Sourced(t, table, at);
    var i :| InEffect(t.history, i, at) && table == Effective(t.history[i].row);
    OnlyVersion(t, i, k, at);
  }

  // ---------------------------------------------------------------- tables in range

  /** Requests whose limits are out of range are refused before a handler sees them. */
  predicate AdmissibleBodies(steps: seq<Step>) {
    forall i :: 0 <= i < |steps| && steps[i].Select? ==> Admissible(Some(steps[i].body))
  }

  predicate AdmissibleRows(s: State) {
    && (forall i :: 0 <= i < |s.history| ==> Admissible(s.history[i].row))
    && (forall w :: w in s.writers ==> Admissible(s.writers[w].snapshot) && Admissible(Some(s.writers[w].body)))
  }

  lemma AdmissibleStep(d: nat, s: State, step: Step)
    requires AdmissibleRows(s) && Enabled(d, s, step) && (step.Select? ==> Admissible(Some(step.body)))
    ensures AdmissibleRows(Apply(d, s, step))
  {
  }

  lemma {:induction false} AdmissibleRun(d: nat, s: State, steps: seq<Step>, t: State)
    requires AdmissibleRows(s) && AdmissibleBodies(steps) && Runs(d, s, steps, t)
    ensures AdmissibleRows(t)
    decreases |steps|
  {
    if steps != [] {
      AdmissibleStep(d, s, steps[0]);
      AdmissibleRun(d, Apply(d, s, steps[0]), steps[1..], t);
    }
  }

  /** Every table ever loaded keeps to the limits that requests may set. */
  lemma LoadsArePossible(d: nat, row: Row, start: int, steps: seq<Step>, t: State)
    requires Runs(d, Initial(row, start), steps, t) && Admissible(row) && AdmissibleBodies(steps)
    ensures forall i :: 0 <= i < |t.loads| ==> Possible(t.loads[i].table)
  {
    AdmissibleRun(d, Initial(row, start), steps, t);
    BoundedStaleness(d, row, start, steps, t);
    forall i | 0 <= i < |t.loads|
      ensures Possible(t.loads[i].table)
    {
      var table := t.loads[i].table;
      assert SourcedWithin(t, table, t.loads[i].at - 300 - d, t.loads[i].at);
      var at :| Sourced(t, table, at);
      assert Admissible(None);
      PossibleIffEffective(table);
    }
  }

  // ---------------------------------------------------------------- tightness

  lemma {:induction false} RunsConcat(d: nat, s: State, steps: seq<Step>, t: State, more: seq<Step>, u: State)
    requires Runs(d, s, steps, t) && Runs(d, t, more, u)
    ensures Runs(d, s, steps + more, u)
    decreases |steps|
  {
    if steps == [] {
      assert [] + more == more;
    } else {
      assert (steps + more)[1..] == steps[1..] + more;
      RunsConcat(d, Apply(d, s, steps[0]), steps[1..], t, more, u);
    }
  }

  lemma OneStep(d: nat, s: State, steps: seq<Step>, t: State, step: Step) returns (longer: seq<Step>, u: State)
    requires Runs(d, s, steps, t) && Enabled(d, t, step)
    ensures longer == steps + [step] && u == Apply(d, t, step)
    ensures Runs(d, s, longer, u)
  {
    longer, u := steps + [step], Apply(d, t, step);
    assert Runs(d, u, [step][1..], u);
    RunsConcat(d, s, steps, t, [step], u);
  }

  /** A PUT runs up to its DELETE. */
  lemma PutUpToDelete(d: nat, body: Columns) returns (steps: seq<Step>, t: State)
    ensures Runs(d, Initial(None, 0), steps, t)
    ensures t == Initial(None, 0).(writers := map[0 := Deleted(None, body)])
  {
    var s := Initial(None, 0);
    steps, t := OneStep(d, s, [], s, Select(0, body));
    steps, t := OneStep(d, s, steps, t, Flush(0));
    steps, t := OneStep(d, s, steps, t, Delete(0));
    assert t.writers == map[0 := Deleted(None, body)];
  }

  /** A reader misses and reads the old row before the PUT commits. */
  lemma ReadBeforeCommit(d: nat, body: Columns) returns (steps: seq<Step>, t: State)
    ensures Runs(d, Initial(None, 0), steps, t)
    ensures t == State(0, None, [Version(None, 0), Version(Some(body), 0)], {},
                       map[0 := Holding(Effective(None), 0, false)], map[], [])
  {
    var s := Initial(None, 0);
    steps, t := PutUpToDelete(d, body);
    steps, t := OneStep(d, s, steps, t, GetMiss(0));
    steps, t := OneStep(d, s, steps, t, ReadRow(0));
    assert t.readers == map[0 := Holding(Effective(None), 0, false)];
    steps, t := OneStep(d, s, steps, t, Commit(0));
    assert t.writers == map[] && t.history == [Version(None, 0), Version(Some(body), 0)];
  }

  /**
    Immediate coherence fails, and the bound cannot be tightened: a reader between a
    PUT's DELETE and its commit leaves the old table to be served up to one unit short
    of 300 + d after that commit.
   */
  lemma StalenessIsReached(d: nat, body: Columns) returns (steps: seq<Step>, t: State)
    ensures Runs(d, Initial(None, 0), steps, t)
    ensures t.loads == [Load(Effective(None), d + 300 - 1)]
    ensures t.history == [Version(None, 0), Version(Some(body), 0)]
  {
    var s := Initial(None, 0);
    steps, t := ReadBeforeCommit(d, body);
    steps, t := OneStep(d, s, steps, t, Tick(d));
    steps, t := OneStep(d, s, steps, t, SetEx(0));
    steps, t := OneStep(d, s, steps, t, Tick(d + TTL - 1));
    steps, t := OneStep(d, s, steps, t, GetHit);
  }

  // ---------------------------------------------------------------- coherence

  /** Neither the live cache entry nor any reader that can still finish holds another table. */
  ghost predicate Coherent(d: nat, s: State) {
    && (s.Hit() ==> s.cache.value.value == Effective(s.Current()))
    && (forall r :: Timely(d, s, r) ==> s.readers[r].table == Effective(s.Current()))
  }

  /** No commit and no failed read. */
  predicate Quiet(steps: seq<Step>) {
    forall i :: 0 <= i < |steps| ==> !steps[i].Commit? && !steps[i].ReadFails?
  }

  /** Every load added on the way from `s` to `t` is the effective table of the row committed in `s`. */
  predicate FreshLoads(s: State, t: State) {
    forall i :: |s.loads| <= i < |t.loads| ==> t.loads[i].table == Effective(s.Current())
  }

  lemma CoherentStep(d: nat, s: State, step: Step)
    requires Coherent(d, s) && Enabled(d, s, step) && !step.Commit? && !step.ReadFails?
    ensures Coherent(d, Apply(d, s, step))
    ensures FreshLoads(s, Apply(d, s, step)) && s.loads <= Apply(d, s, step).loads
    ensures Apply(d, s, step).Current() == s.Current()
  {
    var t := Apply(d, s, step);
    forall r | Timely(d, t, r)
      ensures t.readers[r].table == Effective(s.Current())
    {
      assert step == ReadRow(r) || Timely(d, s, r);
    }
    if t.Hit() {
      assert step.SetEx? || s.Hit();
    }
  }

  lemma {:induction false} CoherenceKept(d: nat, s: State, steps: seq<Step>, t: State)
    requires Coherent(d, s) && Quiet(steps) && Runs(d, s, steps, t)
    ensures FreshLoads(s, t) && s.loads <= t.loads
    decreases |steps|
  {
    if steps != [] {
      assert !steps[0].Commit? && !steps[0].ReadFails?;
      CoherentStep(d, s, steps[0]);
      CoherenceKept(d, Apply(d, s, steps[0]), steps[1..], t);
    }
  }

  /**
    Until the next commit or failed read, every load is current exactly when no live
    entry and no reader that can still finish holds another table.
   */
  lemma CoherentIff(d: nat, s: State)
    ensures Coherent(d, s)
       <==> (forall steps, t :: Quiet(steps) && Runs(d, s, steps, t) ==> FreshLoads(s, t))
  {
    if Coherent(d, s) {
      forall steps, t | Quiet(steps) && Runs(d, s, steps, t)
        ensures FreshLoads(s, t)
      {
        CoherenceKept(d, s, steps, t);
      }
    } else if s.Hit() && s.cache.value.value != Effective(s.Current()) {
      StaleLoad(d, s, GetHit);
    } else {
      var r :| Timely(d, s, r) && s.readers[r].table != Effective(s.Current());
      StaleLoad(d, s, Return(r));
    }
  }

  lemma StaleLoad(d: nat, s: State, step: Step)
    requires Enabled(d, s, step) && (step.GetHit? || step.Return?)
    requires Apply(d, s, step).loads[|s.loads|].table != Effective(s.Current())
    ensures exists steps, t :: Quiet(steps) && Runs(d, s, steps, t) && !FreshLoads(s, t)
  {
    var t := Apply(d, s, step);
    assert Runs(d, t, [step][1..], t);
    assert Quiet([step]) && Runs(d, s, [step], t) && !FreshLoads(s, t);
  }

  /** Nothing from before the DELETE can surface: no live entry, and no reader holds a table. */
  ghost predicate Clear(d: nat, s: State) {
    !s.Hit() && forall r :: !Timely(d, s, r)
  }

  /** A PUT with no reader in flight and no database read before its commit leaves the system coherent. */
  lemma {:induction false} UndisturbedPutIsCoherent(d: nat, s: State, steps: seq<Step>, t: State, w: nat)
    requires Clear(d, s) && Runs(d, s, steps, t) && Enabled(d, t, Commit(w))
    requires forall i :: 0 <= i < |steps| ==> !steps[i].ReadRow? && !steps[i].ReadFails?
    ensures Coherent(d, Apply(d, t, Commit(w)))
    decreases |steps|
  {
    if steps != [] {
      assert !steps[0].ReadRow? && !steps[0].ReadFails?;
      var u := Apply(d, s, steps[0]);
      assert Clear(d, u) by {
        forall r
          ensures !Timely(d, u, r)
        {
          assert !Timely(d, s, r);
        }
      }
      UndisturbedPutIsCoherent(d, u, steps[1..], t, w);
    } else {
      var u := Apply(d, t, Commit(w));
      forall r
        ensures !Timely(d, u, r)
      {
        assert !Timely(d, t, r);
      }
    }
  }

  /** A PUT whose row nobody else committed since its SELECT leaves exactly its body. */
  lemma UncontestedPutWritesBody(row: Row, body: Columns)
    ensures Written(row, body, row) == body
  {
    KeysCoverAll();
  }

  /**
    After a contested PUT the row is the body that its response reports exactly when, on
    every column the body left as it was selected, the other PUT did so as well.
   */
  lemma ContestedPutWritesBodyIff(snapshot: Columns, body: Columns, current: Columns)
    ensures Written(Some(snapshot), body, Some(current)) == body
       <==> forall key: Key :: Same(snapshot, body, key) ==> Same(snapshot, current, key)
  {
    KeysCoverAll();
    var written := Written(Some(snapshot), body, Some(current));
    assert forall key: Key :: Same(snapshot, body, key) || Changes(snapshot, body, key);
    if forall key: Key :: Same(snapshot, body, key) ==> Same(snapshot, current, key) {
      forall key: Key
        ensures Same(written, body, key)
      {
        assert Same(snapshot, body, key) ==> Same(snapshot, current, key);
      }
      assert forall key: Key :: key in written <==> key in body;
    }
    if written == body {
      forall key: Key | Same(snapshot, body, key)
        ensures Same(snapshot, current, key)
      {
        assert Same(written, body, key);
      }
    }
  }

  /** Both have the same value of the column, or both have none. */
  predicate Same(a: Columns, b: Columns, key: Key) {
    (key in a <==> key in b) && (key in a ==> a[key] == b[key])
  }
}
