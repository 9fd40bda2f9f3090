/**
  Ingestion with overlapping messages: each is its own coroutine, which selects the
  device, later flushes and commits its row, and after that asks for the alert check.  The
  flush updates the firmware column only when the message changes the version that its
  SELECT saw.
 */
module ConcurrentIngestion {
  import opened Prelude
  import opened Readings
  import opened Ingestion

  /** `snapshot` is the version of the device that the SELECT of a message saw. */
  datatype Message = Selected(reading: Reading, snapshot: Option<string>) | Saved(reading: Reading)

  datatype State = State(db: Db, open: map<nat, Message>)

  /** A message of an unknown device takes no step: it ends after its SELECT. */
  datatype Step =
    | Select(m: nat, reading: Reading)
    | Commit(m: nat, commitRaises: bool)
    | Enqueue(m: nat, raises: bool)

  predicate Enabled(s: State, step: Step) {
    match step
    case Select(m, reading) => m !in s.open && reading.device in s.db.firmware
    case Commit(m, _) => m in s.open && s.open[m].Selected?
    case Enqueue(m, _) => m in s.open && s.open[m].Saved?
  }

  predicate Writes(message: Message)
    requires message.Selected?
  {
    Reports(message.reading) && message.reading.firmware != message.snapshot
  }

  predicate Stores(s: State, step: Step) {
    Enabled(s, step) && step.Commit? && Stored(s.db, Delivery(s.open[step.m].reading, step.commitRaises, true))
  }

  function Apply(s: State, step: Step): State
    requires Enabled(s, step)
  {
    match step
    case Select(m, reading) => s.(open := s.open[m := Selected(reading, s.db.firmware[reading.device])])
    case Commit(m, commitRaises) =>
      var reading := s.open[m].reading;
      var db := Process(s.db, Delivery(reading, commitRaises, true));
      State(if Writes(s.open[m]) then db else db.(firmware := s.db.firmware),
            if Stores(s, step) then s.open[m := Saved(reading)] else s.open - {m})
    case Enqueue(m, raises) =>
      State(if raises then s.db else s.db.(checks := s.db.checks + [s.open[m].reading]), s.open - {m})
  }

  ghost predicate Runs(s: State, steps: seq<Step>, t: State)
    decreases |steps|
  {
    if steps == [] then s == t else Enabled(s, steps[0]) && Runs(Apply(s, steps[0]), steps[1..], t)
  }

  /** The saved message `m` gets its check requested. */
  predicate Enqueued(steps: seq<Step>, m: nat) {
    steps != [] && if steps[0].Enqueue? && steps[0].m == m then !steps[0].raises else Enqueued(steps[1..], m)
  }

  /** The deliveries of a run, in the order of their commits. */
  function CommitOrder(s: State, steps: seq<Step>): seq<Delivery>
    decreases |steps|
  {
    if steps == [] || !Enabled(s, steps[0]) then [] else
      Committed(s, steps) + CommitOrder(Apply(s, steps[0]), steps[1..])
  }

  /** The delivery that the first step of a run commits, if it is a commit. */
  function Committed(s: State, steps: seq<Step>): seq<Delivery>
    requires steps != [] && Enabled(s, steps[0])
  {
    match steps[0]
    case Commit(m, commitRaises) => [Delivery(s.open[m].reading, commitRaises, !Enqueued(steps[1..], m))]
    case _ => []
  }

  lemma ProcessFirst(db: Db, first: seq<Delivery>, rest: seq<Delivery>)
    requires |first| <= 1
    ensures ProcessAll(db, first + rest) == ProcessAll(ProcessAll(db, first), rest)
    ensures first != [] ==> ProcessAll(db, first) == Process(db, first[0])
    ensures Accepted(db, first + rest) == Accepted(db, first) + Accepted(ProcessAll(db, first), rest)
  {
    if first == [] {
      assert first + rest == rest;
    } else {
      assert (first + rest)[1..] == rest && first[1..] == [];
    }
  }

  // ---------------------------------------------------------------- rows

  /** The same rows and devices; versions and checks may differ. */
  predicate Agree(a: Db, b: Db) {
    a.readings == b.readings && a.firmware.Keys == b.firmware.Keys
  }

  lemma AgreeStep(s: State, steps: seq<Step>, b: Db)
    requires steps != [] && Enabled(s, steps[0]) && Agree(s.db, b)
    ensures Agree(Apply(s, steps[0]).db, ProcessAll(b, Committed(s, steps)))
  {
    ProcessFirst(b, Committed(s, steps), []);
  }

  /** Which rows are stored depends on the order of the commits alone. */
  lemma {:induction false} CommitOrderDecides(s: State, steps: seq<Step>, t: State, b: Db)
    requires Runs(s, steps, t) && Agree(s.db, b)
    ensures Agree(t.db, ProcessAll(b, CommitOrder(s, steps)))
    decreases |steps|
  {
    if steps != [] {
      var u := Apply(s, steps[0]);
      AgreeStep(s, steps, b);
      ProcessFirst(b, Committed(s, steps), CommitOrder(u, steps[1..]));
      CommitOrderDecides(u, steps[1..], t, ProcessAll(b, Committed(s, steps)));
    }
  }

  // ---------------------------------------------------------------- checks

  function CheckSet(db: Db): set<Reading> {
    set r | r in db.checks
  }

  /** Rows saved already whose checks are still to be requested. */
  function Owed(s: State, steps: seq<Step>): set<Reading> {
    set m | m in s.open && s.open[m].Saved? && Enqueued(steps, m) :: s.open[m].reading
  }

  lemma OwedStep(s: State, steps: seq<Step>, b: Db)
    requires steps != [] && Enabled(s, steps[0]) && Agree(s.db, b)
    requires CheckSet(b) == CheckSet(s.db) + Owed(s, steps)
    ensures var u := Apply(s, steps[0]);
            CheckSet(ProcessAll(b, Committed(s, steps))) == CheckSet(u.db) + Owed(u, steps[1..])
  {
    var u, rest := Apply(s, steps[0]), steps[1..];
    var c := ProcessAll(b, Committed(s, steps));
    ProcessFirst(b, Committed(s, steps), []);
    forall r
      ensures r in CheckSet(c) <==> r in CheckSet(u.db) + Owed(u, rest)
    {
      assert r in CheckSet(b) <==> r in CheckSet(s.db) + Owed(s, steps);
      OwedOne(s, steps, r);
    }
  }

  /** One row's share of it: the first step hands it over, or leaves it as it is. */
  lemma OwedOne(s: State, steps: seq<Step>, r: Reading)
    requires steps != [] && Enabled(s, steps[0])
    ensures var u, rest, m := Apply(s, steps[0]), steps[1..], steps[0].m;
            match steps[0]
            case Select(_, _) => r in Owed(u, rest) <==> r in Owed(s, steps)
            case Commit(_, _) =>
              r in Owed(u, rest)
              <==> r in Owed(s, steps) || (Stores(s, steps[0]) && Enqueued(rest, m) && r == s.open[m].reading)
            case Enqueue(_, raises) =>
              r in Owed(s, steps) <==> r in Owed(u, rest) || (!raises && r == s.open[m].reading)
  {
    var u, rest := Apply(s, steps[0]), steps[1..];
    if k :| k in s.open && s.open[k].Saved? && Enqueued(steps, k) && s.open[k].reading == r {
      assert k == steps[0].m || (k in u.open && u.open[k] == s.open[k] && Enqueued(rest, k));
    }
    if k :| k in u.open && u.open[k].Saved? && Enqueued(rest, k) && u.open[k].reading == r {
      assert k == steps[0].m || (k in s.open && u.open[k] == s.open[k] && Enqueued(steps, k));
    }
  }

  lemma {:induction false} ChecksOfCommitOrder(s: State, steps: seq<Step>, t: State, b: Db)
    requires Runs(s, steps, t) && Agree(s.db, b)
    requires CheckSet(b) == CheckSet(s.db) + Owed(s, steps)
    ensures CheckSet(ProcessAll(b, CommitOrder(s, steps))) == CheckSet(t.db)
    decreases |steps|
  {
    if steps == [] {
      assert Owed(s, steps) == {};
    } else {
      var u := Apply(s, steps[0]);
      AgreeStep(s, steps, b);
      OwedStep(s, steps, b);
      ProcessFirst(b, Committed(s, steps), CommitOrder(u, steps[1..]));
      ChecksOfCommitOrder(u, steps[1..], t, ProcessAll(b, Committed(s, steps)));
    }
  }

  /** No check of the key has been requested. */
  predicate Unchecked(db: Db, key: Key) {
    forall i :: 0 <= i < |db.checks| ==> KeyOf(db.checks[i]) != key
  }

  predicate IsSaved(s: State, m: nat) {
    m in s.open && s.open[m].Saved?
  }

  /** A saved message is for a stored row that has no check yet. */
  ghost predicate SavedRows(s: State) {
    forall m :: IsSaved(s, m) ==>
      var row := s.open[m].reading;
      KeyOf(row) in s.db.readings && s.db.readings[KeyOf(row)] == row && Unchecked(s.db, KeyOf(row))
  }

  ghost predicate SavedApart(s: State) {
    forall m, n :: IsSaved(s, m) && IsSaved(s, n) && m != n ==> KeyOf(s.open[m].reading) != KeyOf(s.open[n].reading)
  }

  /** Checks are for stored rows, none twice, and each saved message still has its own to ask for. */
  ghost predicate Accounted(s: State) {
    ChecksFollowRows(s.db) && SavedRows(s) && SavedApart(s)
  }

  lemma ChecksStep(s: State, step: Step)
    requires Accounted(s) && Enabled(s, step)
    ensures ChecksFollowRows(Apply(s, step).db)
  {
    if step.Enqueue? {
      assert IsSaved(s, step.m);
    }
  }

  lemma SavedRowsStep(s: State, step: Step)
    requires Accounted(s) && Enabled(s, step)
    ensures SavedRows(Apply(s, step))
  {
    var u := Apply(s, step);
    forall m | IsSaved(u, m)
      ensures var row := u.open[m].reading;
              KeyOf(row) in u.db.readings && u.db.readings[KeyOf(row)] == row && Unchecked(u.db, KeyOf(row))
    {
      assert IsSaved(s, m) || (step.Commit? && step.m == m);
      assert step.Enqueue? ==> IsSaved(s, step.m) && step.m != m;
    }
  }

  lemma SavedApartStep(s: State, step: Step)
    requires Accounted(s) && Enabled(s, step)
    ensures SavedApart(Apply(s, step))
  {
    var u := Apply(s, step);
    forall m, n | IsSaved(u, m) && IsSaved(u, n) && m != n
      ensures KeyOf(u.open[m].reading) != KeyOf(u.open[n].reading)
    {
      assert IsSaved(s, m) || (step.Commit? && step.m == m);
      assert IsSaved(s, n) || (step.Commit? && step.m == n);
    }
  }

  lemma AccountedStep(s: State, step: Step)
    requires Accounted(s) && Enabled(s, step)
    ensures Accounted(Apply(s, step))
  {
    ChecksStep(s, step);
    SavedRowsStep(s, step);
    SavedApartStep(s, step);
  }

  /** In every overlapping run checks follow rows, and no row is checked twice. */
  lemma {:induction false} AccountedRun(s: State, steps: seq<Step>, t: State)
    requires Accounted(s) && Runs(s, steps, t)
    ensures Accounted(t)
    decreases |steps|
  {
    if steps != [] {
      AccountedStep(s, steps[0]);
      AccountedRun(Apply(s, steps[0]), steps[1..], t);
    }
  }

  predicate NoneTwice(rows: seq<Reading>) {
    forall i, j :: 0 <= i < j < |rows| ==> rows[i] != rows[j]
  }

  lemma {:induction false} CountOnce(rows: seq<Reading>, r: Reading)
    requires NoneTwice(rows)
    ensures multiset(rows)[r] == if r in rows then 1 else 0
  {
    if rows != [] {
      CountOnce(rows[1..], r);
      assert rows == [rows[0]] + rows[1..];
    }
  }

  lemma SameRows(a: seq<Reading>, b: seq<Reading>)
    requires NoneTwice(a) && NoneTwice(b) && forall r :: r in a <==> r in b
    ensures multiset(a) == multiset(b)
  {
    forall r
      ensures multiset(a)[r] == multiset(b)[r]
    {
      CountOnce(a, r);
      CountOnce(b, r);
    }
  }

  /**
    However messages overlap, the readings are those of processing one by one, in commit
    order, only the first delivery of each new key; and so are the checks, but for their
    order, when no message was open at the start.
   */
  lemma OverlapKeepsIdempotence(s: State, steps: seq<Step>, t: State)
    requires Runs(s, steps, t)
    ensures var once := ProcessAll(s.db, Firsts(CommitOrder(s, steps), s.db.readings.Keys));
            && t.db.readings == once.readings
            && (s.open == map[] && ChecksFollowRows(s.db) ==> multiset(t.db.checks) == multiset(once.checks))
  {
    var order := CommitOrder(s, steps);
    CommitOrderDecides(s, steps, t, s.db);
    IngestionIsIdempotent(s.db, order);
    if s.open == map[] && ChecksFollowRows(s.db) {
      var once := ProcessAll(s.db, order);
      assert Owed(s, steps) == {};
      ChecksOfCommitOrder(s, steps, t, s.db);
      AccountedRun(s, steps, t);
      OneCheckPerStoredRow(s.db, order);
      forall r
        ensures r in t.db.checks <==> r in once.checks
      {
        assert r in CheckSet(t.db) <==> r in CheckSet(once);
      }
      SameRows(t.db.checks, once.checks);
    }
  }

  // ---------------------------------------------------------------- firmware, step by step

  /** The step stores a row of the device that reports a version. */
  predicate StoresVersion(s: State, step: Step, device: nat) {
    Stores(s, step) && s.open[step.m].reading.device == device && Reports(s.open[step.m].reading)
  }

  /** It leaves the column alone, though another version is in place. */
  predicate Stale(s: State, step: Step, device: nat)
    requires StoresVersion(s, step, device)
  {
    !Writes(s.open[step.m]) && s.db.firmware[device] != s.open[step.m].reading.firmware
  }

  /** Whether the last row of the device that reports a version was stale; `was` if there is none. */
  predicate LastStale(s: State, steps: seq<Step>, device: nat, was: bool)
    decreases |steps|
  {
    if steps == [] || !Enabled(s, steps[0]) then was else
      LastStale(Apply(s, steps[0]), steps[1..], device,
                if StoresVersion(s, steps[0], device) then Stale(s, steps[0], device) else was)
  }

  /** The rows a run stores, in the order of their commits. */
  function Rows(s: State, steps: seq<Step>): seq<Reading>
    decreases |steps|
  {
    if steps == [] || !Enabled(s, steps[0]) then [] else
      (if Stores(s, steps[0]) then [s.open[steps[0].m].reading] else []) + Rows(Apply(s, steps[0]), steps[1..])
  }

  lemma {:induction false} RowsAreAccepted(s: State, steps: seq<Step>, t: State, b: Db)
    requires Runs(s, steps, t) && Agree(s.db, b)
    ensures Rows(s, steps) == Accepted(b, CommitOrder(s, steps))
    decreases |steps|
  {
    if steps != [] {
      var u := Apply(s, steps[0]);
      AgreeStep(s, steps, b);
      ProcessFirst(b, Committed(s, steps), CommitOrder(u, steps[1..]));
      AcceptedFirst(s, steps, b);
      RowsAreAccepted(u, steps[1..], t, ProcessAll(b, Committed(s, steps)));
    }
  }

  lemma AcceptedFirst(s: State, steps: seq<Step>, b: Db)
    requires steps != [] && Enabled(s, steps[0]) && Agree(s.db, b)
    ensures Accepted(b, Committed(s, steps)) == if Stores(s, steps[0]) then [s.open[steps[0].m].reading] else []
  {
    ProcessFirst(b, Committed(s, steps), []);
  }

  lemma {:induction false} FirmwareFrom(s: State, steps: seq<Step>, t: State, device: nat,
                                        expected: Option<string>, was: bool)
    requires Runs(s, steps, t) && device in s.db.firmware
    requires was <==> s.db.firmware[device] != expected
    ensures device in t.db.firmware
    ensures t.db.firmware[device] == LastReported(Rows(s, steps), device, expected)
       <==> !LastStale(s, steps, device, was)
    decreases |steps|
  {
    if steps != [] {
      var u, rest := Apply(s, steps[0]), Rows(Apply(s, steps[0]), steps[1..]);
      if Stores(s, steps[0]) {
        var row := s.open[steps[0].m].reading;
        LastReportedFront(rest, row, device, expected);
        assert [row][..0] == [];
        FirmwareFrom(u, steps[1..], t, device, LastReported([row], device, expected),
                     if StoresVersion(s, steps[0], device) then Stale(s, steps[0], device) else was);
      } else {
        assert [] + rest == rest;
        FirmwareFrom(u, steps[1..], t, device, expected, was);
      }
    }
  }

  // ---------------------------------------------------------------- firmware, by the schedule

  /** The state before step k. */
  function StateAt(s: State, steps: seq<Step>, k: nat): State
    decreases |steps|
  {
    if k == 0 || steps == [] || !Enabled(s, steps[0]) then s else StateAt(Apply(s, steps[0]), steps[1..], k - 1)
  }

  predicate StoresVersionAt(s: State, steps: seq<Step>, k: int, device: nat) {
    0 <= k < |steps| && StoresVersion(StateAt(s, steps, k), steps[k], device)
  }

  function MessageAt(s: State, steps: seq<Step>, k: int, device: nat): Message
    requires StoresVersionAt(s, steps, k, device)
  {
    StateAt(s, steps, k).open[steps[k].m]
  }

  function VersionAt(s: State, steps: seq<Step>, k: int, device: nat): Option<string>
    requires StoresVersionAt(s, steps, k, device)
  {
    MessageAt(s, steps, k, device).reading.firmware
  }

  /** Step k puts the version of its message in place. */
  predicate WritesAt(s: State, steps: seq<Step>, k: int, device: nat) {
    StoresVersionAt(s, steps, k, device) && Writes(MessageAt(s, steps, k, device))
  }

  predicate IsSelect(step: Step, m: nat) {
    step.Select? && step.m == m
  }

  /** Step q is the SELECT of the message that commits at p. */
  predicate SelectedAt(steps: seq<Step>, q: int, m: nat, p: int) {
    && 0 <= q < p <= |steps|
    && IsSelect(steps[q], m)
    && forall j :: q < j < p ==> !IsSelect(steps[j], m)
  }

  /** Step k is the last before p that puts a version of the device in place. */
  predicate LastWrite(s: State, steps: seq<Step>, k: int, p: int, device: nat) {
    && 0 <= k < p <= |steps|
    && WritesAt(s, steps, k, device)
    && forall j :: k < j < p ==> !WritesAt(s, steps, j, device)
  }

  /**
    The message that commits at p saw its own version in place when it was selected, and
    the last version put in place between that SELECT and p is another.
   */
  ghost predicate Overtaken(s: State, steps: seq<Step>, p: int, device: nat)
    requires StoresVersionAt(s, steps, p, device)
  {
    && !Writes(MessageAt(s, steps, p, device))
    && exists q, k :: SelectedAt(steps, q, steps[p].m, p) && q < k && LastWrite(s, steps, k, p, device)
                   && VersionAt(s, steps, k, device) != VersionAt(s, steps, p, device)
  }

  /** Step p stores the last row of the device that reports a version. */
  ghost predicate LastVersion(s: State, steps: seq<Step>, p: int, device: nat) {
    StoresVersionAt(s, steps, p, device) && forall j :: p < j ==> !StoresVersionAt(s, steps, j, device)
  }

  lemma {:induction false} NextState(s: State, steps: seq<Step>, t: State, k: nat)
    requires Runs(s, steps, t) && k < |steps|
    ensures Enabled(StateAt(s, steps, k), steps[k])
    ensures StateAt(s, steps, k + 1) == Apply(StateAt(s, steps, k), steps[k])
    decreases |steps|
  {
    if k == 0 {
      assert StateAt(Apply(s, steps[0]), steps[1..], 0) == Apply(s, steps[0]);
    } else {
      NextState(Apply(s, steps[0]), steps[1..], t, k - 1);
    }
  }

  lemma {:induction false} DeviceStays(s: State, steps: seq<Step>, t: State, k: nat)
    requires Runs(s, steps, t) && k <= |steps|
    ensures StateAt(s, steps, k).db.firmware.Keys == s.db.firmware.Keys
  {
    if k > 0 {
      DeviceStays(s, steps, t, k - 1);
      NextState(s, steps, t, k - 1);
    }
  }

  lemma {:induction false} Unwritten(s: State, steps: seq<Step>, t: State, device: nat, a: nat, b: nat)
    requires Runs(s, steps, t) && device in s.db.firmware && a <= b <= |steps|
    requires forall j :: a <= j < b ==> !WritesAt(s, steps, j, device)
    ensures device in StateAt(s, steps, a).db.firmware && device in StateAt(s, steps, b).db.firmware
    ensures StateAt(s, steps, b).db.firmware[device] == StateAt(s, steps, a).db.firmware[device]
    decreases b - a
  {
    DeviceStays(s, steps, t, a);
    if a < b {
      Unwritten(s, steps, t, device, a, b - 1);
      NextState(s, steps, t, b - 1);
      assert !WritesAt(s, steps, b - 1, device);
      assert StateAt(s, steps, b - 1).db.firmware.Keys == StateAt(s, steps, b).db.firmware.Keys;
    }
  }

  lemma WrittenVersion(s: State, steps: seq<Step>, t: State, device: nat, k: nat, p: nat)
    requires Runs(s, steps, t) && device in s.db.firmware && LastWrite(s, steps, k, p, device)
    ensures device in StateAt(s, steps, p).db.firmware
    ensures StateAt(s, steps, p).db.firmware[device] == VersionAt(s, steps, k, device)
  {
    NextState(s, steps, t, k);
    Unwritten(s, steps, t, device, k + 1, p);
  }

  /** Every open message was selected in the run, and holds what its SELECT saw. */
  lemma {:induction false} SelectOf(s: State, steps: seq<Step>, t: State, m: nat, p: nat) returns (q: nat)
    requires Runs(s, steps, t) && s.open == map[] && p <= |steps|
    requires m in StateAt(s, steps, p).open && StateAt(s, steps, p).open[m].Selected?
    ensures SelectedAt(steps, q, m, p)
    ensures var message, firmware := StateAt(s, steps, p).open[m], StateAt(s, steps, q).db.firmware;
            message.reading.device in firmware && message.snapshot == firmware[message.reading.device]
  {
    NextState(s, steps, t, p - 1);
    if IsSelect(steps[p - 1], m) {
      q := p - 1;
    } else {
      q := SelectOf(s, steps, t, m, p - 1);
    }
  }

  lemma {:induction false} FindLastWrite(s: State, steps: seq<Step>, q: nat, p: nat, device: nat) returns (k: int)
    requires q <= p <= |steps|
    ensures k == -1 ==> forall j :: q <= j < p ==> !WritesAt(s, steps, j, device)
    ensures k != -1 ==> q <= k && LastWrite(s, steps, k, p, device)
  {
    if p == q {
      k := -1;
    } else if WritesAt(s, steps, p - 1, device) {
      k := p - 1;
    } else {
      k := FindLastWrite(s, steps, q, p - 1, device);
    }
  }

  lemma StaleIsOvertaken(s: State, steps: seq<Step>, t: State, device: nat, p: nat)
    requires Runs(s, steps, t) && s.open == map[] && device in s.db.firmware
    requires StoresVersionAt(s, steps, p, device)
    ensures Stale(StateAt(s, steps, p), steps[p], device) <==> Overtaken(s, steps, p, device)
  {
    var m := steps[p].m;
    if Stale(StateAt(s, steps, p), steps[p], device) {
      var q := SelectOf(s, steps, t, m, p);
      var k := FindLastWrite(s, steps, q, p, device);
      if k == -1 {
        Unwritten(s, steps, t, device, q, p);
        assert false;
      }
      WrittenVersion(s, steps, t, device, k, p);
      assert SelectedAt(steps, q, m, p) && q < k && LastWrite(s, steps, k, p, device);
    }
    if Overtaken(s, steps, p, device) {
      var q, k :| SelectedAt(steps, q, m, p) && q < k && LastWrite(s, steps, k, p, device)
               && VersionAt(s, steps, k, device) != VersionAt(s, steps, p, device);
      WrittenVersion(s, steps, t, device, k, p);
    }
  }

  lemma StoresVersionLater(s: State, steps: seq<Step>, device: nat, k: nat)
    requires steps != [] && Enabled(s, steps[0])
    ensures StoresVersionAt(s, steps, k + 1, device)
       <==> StoresVersionAt(Apply(s, steps[0]), steps[1..], k, device)
  {
  }

  /** The last row of the device that reports a version, if there is one. */
  lemma {:induction false} FindLastVersion(s: State, steps: seq<Step>, t: State, device: nat, was: bool)
    returns (p: int)
    requires Runs(s, steps, t)
    ensures p == -1 ==> (LastStale(s, steps, device, was) <==> was)
                        && forall j :: !StoresVersionAt(s, steps, j, device)
    ensures p != -1 ==> LastVersion(s, steps, p, device)
                        && (LastStale(s, steps, device, was) <==> Stale(StateAt(s, steps, p), steps[p], device))
    decreases |steps|
  {
    p := -1;
    if steps != [] {
      var u, rest := Apply(s, steps[0]), steps[1..];
      var here := StoresVersion(s, steps[0], device);
      p := FindLastVersion(u, rest, t, device, if here then Stale(s, steps[0], device) else was);
      forall j: int | 0 < j
        ensures StoresVersionAt(s, steps, j, device) <==> StoresVersionAt(u, rest, j - 1, device)
      {
        StoresVersionLater(s, steps, device, j - 1);
      }
      if p != -1 {
        p := p + 1;
      } else if here {
        p := 0;
      }
    }
  }

  /**
    A device shows the version of its last stored row that has one exactly when that row's
    message was not overtaken between its SELECT and its commit.
   */
  lemma FirmwareIsLastStoredIff(s: State, steps: seq<Step>, t: State, device: nat)
    requires Runs(s, steps, t) && s.open == map[] && device in s.db.firmware
    ensures device in t.db.firmware
    ensures t.db.firmware[device]
              == LastReported(Accepted(s.db, CommitOrder(s, steps)), device, s.db.firmware[device])
       <==> !exists p :: LastVersion(s, steps, p, device) && Overtaken(s, steps, p, device)
  {
    RowsAreAccepted(s, steps, t, s.db);
    FirmwareFrom(s, steps, t, device, s.db.firmware[device], false);
    var p := FindLastVersion(s, steps, t, device, false);
    if p != -1 {
      StaleIsOvertaken(s, steps, t, device, p);
      forall j | LastVersion(s, steps, j, device)
        ensures j == p
      {
        assert j < p ==> !StoresVersionAt(s, steps, p, device);
        assert p < j ==> !StoresVersionAt(s, steps, j, device);
      }
    }
  }

  /** A message is selected only when no other one of its device waits for its commit. */
  ghost predicate OneAtATime(s: State, steps: seq<Step>, device: nat)
    decreases |steps|
  {
    if steps == [] || !Enabled(s, steps[0]) then true else
      && (steps[0].Select? && steps[0].reading.device == device ==> forall m :: !Waits(s, m, device))
      && OneAtATime(Apply(s, steps[0]), steps[1..], device)
  }

  predicate Waits(s: State, m: nat, device: nat) {
    m in s.open && s.open[m].Selected? && s.open[m].reading.device == device
  }

  lemma WaitStep(s: State, step: Step, device: nat, m: nat)
    requires Enabled(s, step) && Waits(Apply(s, step), m, device)
    ensures if IsSelect(step, m) then step.reading.device == device else Waits(s, m, device)
    ensures step.Commit? ==> step.m != m
  {
  }

  lemma {:induction false} NeverStale(s: State, steps: seq<Step>, t: State, device: nat)
    requires Runs(s, steps, t) && device in s.db.firmware && OneAtATime(s, steps, device)
    requires forall m, n :: Waits(s, m, device) && Waits(s, n, device) ==> m == n
    requires forall m :: Waits(s, m, device) ==> s.open[m].snapshot == s.db.firmware[device]
    ensures !LastStale(s, steps, device, false)
    decreases |steps|
  {
    if steps != [] {
      var u := Apply(s, steps[0]);
      forall m, n | Waits(u, m, device) && Waits(u, n, device)
        ensures m == n
      {
        WaitStep(s, steps[0], device, m);
        WaitStep(s, steps[0], device, n);
      }
      forall m | Waits(u, m, device)
        ensures u.open[m].snapshot == u.db.firmware[device]
      {
        WaitStep(s, steps[0], device, m);
        assert steps[0].Commit? ==> !Waits(s, steps[0].m, device);
      }
      NeverStale(u, steps[1..], t, device);
    }
  }

  /** Then none is overtaken, so the device shows the version of its last stored row. */
  lemma NoOverlapNoOvertaking(s: State, steps: seq<Step>, t: State, device: nat)
    requires Runs(s, steps, t) && s.open == map[] && device in s.db.firmware && OneAtATime(s, steps, device)
    ensures device in t.db.firmware
    ensures t.db.firmware[device]
         == LastReported(Accepted(s.db, CommitOrder(s, steps)), device, s.db.firmware[device])
    ensures !exists p :: LastVersion(s, steps, p, device) && Overtaken(s, steps, p, device)
  {
    NeverStale(s, steps, t, device);
    RowsAreAccepted(s, steps, t, s.db);
    FirmwareFrom(s, steps, t, device, s.db.firmware[device], false);
    FirmwareIsLastStoredIff(s, steps, t, device);
  }

  // ---------------------------------------------------------------- single runs

  lemma {:induction false} RunsConcat(s: State, steps: seq<Step>, t: State, more: seq<Step>, u: State)
    requires Runs(s, steps, t) && Runs(t, more, u)
    ensures Runs(s, steps + more, u)
    decreases |steps|
  {
    if steps == [] {
      assert [] + more == more;
    } else {
      assert (steps + more)[1..] == steps[1..] + more;
      RunsConcat(Apply(s, steps[0]), steps[1..], t, more, u);
    }
  }

  lemma OneStep(s: State, steps: seq<Step>, t: State, step: Step) returns (longer: seq<Step>, u: State)
    requires Runs(s, steps, t) && Enabled(t, step)
    ensures longer == steps + [step] && u == Apply(t, step)
    ensures Runs(s, longer, u)
  {
    longer, u := steps + [step], Apply(t, step);
    assert Runs(u, [step][1..], u);
    RunsConcat(s, steps, t, [step], u);
  }

  /** A message that nothing interrupts is processed as one transaction. */
  lemma AloneIsProcess(s: State, m: nat, delivery: Delivery) returns (steps: seq<Step>, t: State)
    requires m !in s.open && delivery.reading.device in s.db.firmware
    ensures Runs(s, steps, t) && t == State(Process(s.db, delivery), s.open)
  {
    steps, t := OneStep(s, [], s, Select(m, delivery.reading));
    steps, t := OneStep(s, steps, t, Commit(m, delivery.commitRaises));
    if Stored(s.db, delivery) {
      steps, t := OneStep(s, steps, t, Enqueue(m, delivery.enqueueRaises));
      assert t.db.firmware == Process(s.db, delivery).firmware;
    }
    assert t.open == s.open;
  }

  function RowOf(time: int, version: string): Reading {
    Reading(0, time, None, None, None, None, None, Some(version))
  }

  /** Two messages overlap: the later row reports "1", and the device is left at "2". */
  lemma OlderVersionCanStay() returns (s: State, steps: seq<Step>, t: State)
    ensures Runs(s, steps, t) && s.open == map[] && 0 in s.db.firmware && 0 in t.db.firmware
    ensures LastReported(Accepted(s.db, CommitOrder(s, steps)), 0, s.db.firmware[0]) == Some("1")
    ensures t.db.firmware[0] == Some("2")
  {
    s := State(Db(map[0 := Some("1")], map[], []), map[]);
    var u;
    steps, u := BothSelected(s);
    t := BothCommitted(u);
    var commits := [Commit(0, false), Commit(1, false)];
    RunsConcat(s, steps, u, commits, t);
    RowsConcat(s, steps, u, commits);
    steps := steps + commits;
    RowsAreAccepted(s, steps, t, s.db);
  }

  lemma BothSelected(s: State) returns (steps: seq<Step>, u: State)
    requires s == State(Db(map[0 := Some("1")], map[], []), map[])
    ensures Runs(s, steps, u) && Rows(s, steps) == []
    ensures u == State(s.db, map[0 := Selected(RowOf(1, "2"), Some("1")), 1 := Selected(RowOf(2, "1"), Some("1"))])
  {
    steps := [Select(0, RowOf(1, "2")), Select(1, RowOf(2, "1"))];
    var s1 := Apply(s, steps[0]);
    u := Apply(s1, steps[1]);
    assert steps[1..][1..] == [] && Runs(s1, steps[1..], u);
    assert Rows(u, []) == [] && Rows(s1, steps[1..]) == [];
  }

  lemma BothCommitted(u: State) returns (t: State)
    requires u == State(Db(map[0 := Some("1")], map[], []),
                        map[0 := Selected(RowOf(1, "2"), Some("1")), 1 := Selected(RowOf(2, "1"), Some("1"))])
    ensures Runs(u, [Commit(0, false), Commit(1, false)], t)
    ensures Rows(u, [Commit(0, false), Commit(1, false)]) == [RowOf(1, "2"), RowOf(2, "1")]
    ensures 0 in t.db.firmware && t.db.firmware[0] == Some("2")
  {
    var steps := [Commit(0, false), Commit(1, false)];
    var u1 := Apply(u, steps[0]);
    t := Apply(u1, steps[1]);
    assert Stores(u, steps[0]) && Stores(u1, steps[1]);
    assert steps[1..] == [Commit(1, false)] && steps[1..][1..] == [];
    assert Rows(t, []) == [] && Rows(u1, steps[1..]) == [RowOf(2, "1")];
  }

  lemma {:induction false} RowsConcat(s: State, steps: seq<Step>, t: State, more: seq<Step>)
    requires Runs(s, steps, t)
    ensures Rows(s, steps + more) == Rows(s, steps) + Rows(t, more)
    decreases |steps|
  {
    if steps == [] {
      assert [] + more == more;
    } else {
      assert (steps + more)[1..] == steps[1..] + more;
      RowsConcat(Apply(s, steps[0]), steps[1..], t, more);
    }
  }
}
