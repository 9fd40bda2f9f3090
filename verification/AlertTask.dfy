/**
  The worker's alert check: loading thresholds as a run of the cache protocol, the PUT
  that competes with it, one check on the queue, and what its events mean.
 */
module AlertTask {
  import opened Prelude
  import opened Redis
  import opened Thresholds
  import opened ThresholdCache

  // ---------------------------------------------------------------- uninterrupted calls

  /** How the worker's database session ends; a failing commit keeps the columns already read. */
  datatype DbRead = ReadOk | ReadRaises | CommitRaises

  datatype PutError = Failed

  /** The cache key and the committed row of one device, with the protocol state they stand for. */
  class ConfigStore {
    var now: int
    var cache: Option<Entry<Table>>
    var row: Row
    ghost var world: State

    ghost predicate Valid()
      reads this
    {
      && world.history != []
      && world.now == now
      && world.cache == cache
      && world.Current() == row
    }

    constructor (row: Row, now: int)
      ensures Valid() && world == Initial(row, now)
    {
      this.now, this.cache, this.row := now, None, row;
      world := Initial(row, now);
    }

    /** One worker load that nothing interrupts; `reader` names it among the loads in flight. */
    method LoadThresholds(getRaises: bool, read: DbRead, setRaises: bool, ghost reader: nat)
      returns (thresholds: Table, ghost steps: seq<Step>)
      requires Valid() && reader !in world.readers
      modifies this
      ensures Valid() && row == old(row) && now == old(now)
      ensures Runs(0, old(world), steps, world)
      ensures world.loads == old(world).loads + [Load(thresholds, now)]
      ensures thresholds == if old(world).Hit() && !getRaises then old(cache).value.value
                            else if read.ReadRaises? then Globals() else Effective(row)
      ensures cache == if (old(world).Hit() && !getRaises) || setRaises then old(cache)
                       else Some(Expiring(thresholds, now + 300))
    {
      if !getRaises && cache.Some? && cache.value.Alive(now) {
        thresholds := cache.value.value;
        world, steps := HitIsARun(world);
        return;
      }
      thresholds := Globals();
      if !read.ReadRaises? && row.Some? {
        thresholds := Override(row.value);
      }
      if !setRaises {
        cache := Some(Expiring(thresholds, now + TTL));
      }
      world, steps := MissIsARun(world, reader, getRaises, read.ReadRaises?, setRaises);
    }

    /**
      One PUT that nothing interrupts.  An error in DELETE rolls back; the commit comes
      last, after the handler is done, and may fail as well.
     */
    method PutDeviceConfig(body: Columns, deleteRaises: bool, commitRaises: bool, ghost writer: nat)
      returns (r: Result<Table, PutError>, ghost steps: seq<Step>)
      requires Valid() && writer !in world.writers && !RowLocked(world)
      modifies this
      ensures Valid() && now == old(now)
      ensures Runs(0, old(world), steps, world)
      ensures r.Err? <==> deleteRaises || commitRaises
      ensures row == if r.Ok? then Some(body) else old(row)
      ensures cache == if deleteRaises then old(cache) else None
      ensures r.Ok? ==> r.value == Effective(row)
    {
      if deleteRaises {
        world, steps := RolledBackPutIsARun(world, writer, body);
        return Err(Failed), steps;
      }
      cache := None;
      if commitRaises {
        world, steps := UncommittedPutIsARun(world, writer, body);
        return Err(Failed), steps;
      }
      row := Some(body);
      world, steps := PutIsARun(world, writer, body);
      r := Ok(Effective(row));
    }
  }

  lemma HitIsARun(s: State) returns (t: State, steps: seq<Step>)
    requires s.Hit()
    ensures Runs(0, s, steps, t)
    ensures t == s.(loads := s.loads + [Load(s.cache.value.value, s.now)])
  {
    steps, t := OneStep(0, s, [], s, GetHit);
  }

  /** GET misses or fails, then the database read, SETEX and the return, all at one instant. */
  lemma MissIsARun(s: State, reader: nat, getRaises: bool, readRaises: bool, setRaises: bool)
    returns (t: State, steps: seq<Step>)
    requires reader !in s.readers && (getRaises || !s.Hit())
    ensures Runs(0, s, steps, t)
    ensures var table := if readRaises then Globals() else Effective(s.Current());
            && t.loads == s.loads + [Load(table, s.now)]
            && t.cache == (if setRaises then s.cache else Some(Expiring(table, s.now + TTL)))
    ensures t.now == s.now && t.history == s.history
  {
    steps, t := OneStep(0, s, [], s, if getRaises then GetFails(reader) else GetMiss(reader));
    steps, t := OneStep(0, s, steps, t, if readRaises then ReadFails(reader) else ReadRow(reader));
    if !setRaises {
      steps, t := OneStep(0, s, steps, t, SetEx(reader));
    }
    steps, t := OneStep(0, s, steps, t, Return(reader));
  }

  lemma FlushedPut(s: State, writer: nat, body: Columns) returns (t: State, steps: seq<Step>)
    requires writer !in s.writers && !RowLocked(s)
    ensures Runs(0, s, steps, t)
    ensures t == s.(writers := s.writers[writer := Flushed(s.Current(), body)])
  {
    steps, t := OneStep(0, s, [], s, Select(writer, body));
    assert !RowLocked(t);
    steps, t := OneStep(0, s, steps, t, Flush(writer));
    assert t.writers == s.writers[writer := Flushed(s.Current(), body)];
  }

  lemma RolledBackPutIsARun(s: State, writer: nat, body: Columns) returns (t: State, steps: seq<Step>)
    requires writer !in s.writers && !RowLocked(s)
    ensures Runs(0, s, steps, t) && t == s
  {
    t, steps := FlushedPut(s, writer, body);
    steps, t := OneStep(0, s, steps, t, Abort(writer));
    assert t.writers == s.writers;
  }

  lemma UncommittedPutIsARun(s: State, writer: nat, body: Columns) returns (t: State, steps: seq<Step>)
    requires writer !in s.writers && !RowLocked(s)
    ensures Runs(0, s, steps, t) && t == s.(cache := None)
  {
    t, steps := FlushedPut(s, writer, body);
    steps, t := OneStep(0, s, steps, t, Delete(writer));
    steps, t := OneStep(0, s, steps, t, Abort(writer));
    assert t.writers == s.writers;
  }

  lemma PutIsARun(s: State, writer: nat, body: Columns) returns (t: State, steps: seq<Step>)
    requires writer !in s.writers && !RowLocked(s)
    ensures Runs(0, s, steps, t)
    ensures t == s.(cache := None, history := s.history + [Version(Some(body), s.now)])
  {
    t, steps := FlushedPut(s, writer, body);
    steps, t := OneStep(0, s, steps, t, Delete(writer));
    UncontestedPutWritesBody(s.Current(), body);
    steps, t := OneStep(0, s, steps, t, Commit(writer));
    assert t.writers == s.writers;
  }

  // ---------------------------------------------------------------- persistence and dispatch

  datatype AlertEvent = AlertEvent(device: nat, alert: Alert, readingTime: int)

  function EventsOf(device: nat, alerts: seq<Alert>, readingTime: int): seq<AlertEvent> {
    seq(|alerts|, i requires 0 <= i < |alerts| => AlertEvent(device, alerts[i], readingTime))
  }

  /**
    How an execution ends for the queue.  A message is acknowledged only after its task
    has finished; until then it may be handed out again, because the worker is lost or
    because the broker's visibility timeout has passed.  An abandoned execution writes
    nothing and asks for nothing; a redelivered one runs to its end all the same.
   */
  datatype Fate = Acknowledged | Abandoned | Redelivered

  /** One execution of the task: the queued message it takes, the table it loads, and what raises. */
  datatype Attempt = Attempt(message: nat, table: Table, raisesEarly: bool, persistRaises: bool, fate: Fate)

  class AlertStore {
    var events: seq<AlertEvent>

    /** All rows of the batch or none; an error is swallowed. */
    method PersistAlerts(device: nat, alerts: seq<Alert>, readingTime: int, raises: bool)
      modifies this
      ensures events == old(events) + if raises then [] else EventsOf(device, alerts, readingTime)
      ensures |events| == |old(events)| + if raises then 0 else |alerts|
      ensures !raises ==> forall i :: 0 <= i < |alerts| ==>
                events[|old(events)| + i] == AlertEvent(device, alerts[i], readingTime)
    {
      var session: seq<AlertEvent> := [];
      for i := 0 to |alerts|
        invariant session == EventsOf(device, alerts[..i], readingTime)
      {
        session := session + [AlertEvent(device, alerts[i], readingTime)];
      }
      assert alerts[..|alerts|] == alerts;
      if !raises {
        events := events + session;
      }
    }

    /** The task body: an error before persistence asks for a retry, nothing after it raises. */
    method Check(device: nat, sample: Sample, readingTime: int, attempt: Attempt) returns (retry: bool)
      requires Complete(attempt.table)
      modifies this
      ensures events == old(events) + Concat(device, readingTime, AttemptBatches(sample, attempt))
      ensures retry <==> attempt.raisesEarly && !attempt.fate.Abandoned?
      ensures events == old(events)
                        + if attempt.raisesEarly || attempt.persistRaises || attempt.fate.Abandoned? then []
                          else EventsOf(device, Evaluation(attempt.table, sample), readingTime)
    {
      OneBatch(device, readingTime, sample, attempt);
      if attempt.fate.Abandoned? {
        return false;
      }
      if attempt.raisesEarly {
        return true;
      }
      var alerts := Evaluate(attempt.table, sample);
      if alerts == [] {
        return false;
      }
      PersistAlerts(device, alerts, readingTime, attempt.persistRaises);
      retry := false;
    }

    /** All executions that one requested check leads to. */
    method Deliver(device: nat, sample: Sample, readingTime: int, attempts: seq<Attempt>)
      requires AllComplete(attempts)
      modifies this
      ensures events == old(events) + Concat(device, readingTime, Outcome(sample, attempts).batches)
    {
      var queued := [MAX_RETRIES];
      for i := 0 to |attempts|
        invariant queued == Outcome(sample, attempts[..i]).queued
        invariant events == old(events) + Concat(device, readingTime, Outcome(sample, attempts[..i]).batches)
      {
        ghost var before := Outcome(sample, attempts[..i]).batches;
        var attempt := attempts[i];
        assert attempts[..i + 1][..i] == attempts[..i];
        if attempt.message < |queued| {
          ghost var batches := AttemptBatches(sample, attempt);
          ConcatSplits(device, readingTime, before, batches);
          AppendIsAssociative(old(events), Concat(device, readingTime, before), Concat(device, readingTime, batches));
          var retries := queued[attempt.message];
          var retry := Check(device, sample, readingTime, attempt);
          queued := Without(queued, attempt.message)
                    + (if retry && retries > 0 then [retries - 1] else [])
                    + (if attempt.fate.Acknowledged? then [] else [retries]);
        }
      }
      assert attempts[..|attempts|] == attempts;
    }
  }

  lemma OneBatch(device: nat, readingTime: int, sample: Sample, attempt: Attempt)
    requires Complete(attempt.table)
    ensures Concat(device, readingTime, AttemptBatches(sample, attempt))
         == if attempt.raisesEarly || attempt.persistRaises || attempt.fate.Abandoned? then []
            else EventsOf(device, Evaluation(attempt.table, sample), readingTime)
  {
    var alerts := Evaluation(attempt.table, sample);
    assert [alerts][1..] == [];
    assert EventsOf(device, [], readingTime) == [];
  }

  lemma AppendIsAssociative<T>(a: seq<T>, b: seq<T>, c: seq<T>)
    ensures a + b + c == a + (b + c)
  {
  }

  lemma {:induction false} ConcatSplits(device: nat, readingTime: int, batches: seq<seq<Alert>>, more: seq<seq<Alert>>)
    ensures Concat(device, readingTime, batches + more)
         == Concat(device, readingTime, batches) + Concat(device, readingTime, more)
  {
    if batches == [] {
      assert [] + more == more;
    } else {
      assert (batches + more)[1..] == batches[1..] + more;
      ConcatSplits(device, readingTime, batches[1..], more);
    }
  }

  function Concat(device: nat, readingTime: int, batches: seq<seq<Alert>>): seq<AlertEvent> {
    if batches == [] then [] else
      EventsOf(device, batches[0], readingTime) + Concat(device, readingTime, batches[1..])
  }

  predicate Retries(attempt: Attempt) {
    attempt.raisesEarly && !attempt.fate.Abandoned?
  }

  /** The batch one execution writes, if any. */
  function AttemptBatches(sample: Sample, attempt: Attempt): seq<seq<Alert>>
    requires Complete(attempt.table)
  {
    var alerts := Evaluation(attempt.table, sample);
    if attempt.fate.Abandoned? || attempt.raisesEarly || alerts == [] || attempt.persistRaises then []
    else [alerts]
  }

  predicate AllComplete(attempts: seq<Attempt>) {
    forall i :: 0 <= i < |attempts| ==> Complete(attempts[i].table)
  }

  // ---------------------------------------------------------------- one check on the queue

  const MAX_RETRIES: nat := 3

  /** The messages queued for one check, each with the retries it has left, and the batches written. */
  datatype Progress = Progress(queued: seq<nat>, batches: seq<seq<Alert>>)

  function Without(queued: seq<nat>, i: nat): seq<nat>
    requires i < |queued|
  {
    queued[..i] + queued[i + 1..]
  }

  /**
    An execution takes its message, writes, and queues its retry; the message is queued
    again unless it is acknowledged.
   */
  function After(sample: Sample, s: Progress, attempt: Attempt): Progress
    requires Complete(attempt.table)
  {
    if attempt.message >= |s.queued| then s else
      var retries := s.queued[attempt.message];
      Progress(Without(s.queued, attempt.message)
               + (if Retries(attempt) && retries > 0 then [retries - 1] else [])
               + (if attempt.fate.Acknowledged? then [] else [retries]),
               s.batches + AttemptBatches(sample, attempt))
  }

  function Outcome(sample: Sample, attempts: seq<Attempt>): Progress
    requires AllComplete(attempts)
  {
    if attempts == [] then Progress([MAX_RETRIES], []) else
      After(sample, Outcome(sample, attempts[..|attempts| - 1]), attempts[|attempts| - 1])
  }

  /** What an execution leaves of the retries of its message: the message itself, a retry, both or neither. */
  function Leaves(attempt: Attempt, retries: nat): multiset<nat> {
    (if attempt.fate.Acknowledged? then multiset{} else multiset{retries})
    + (if attempt.raisesEarly && !attempt.fate.Abandoned? && retries > 0 then multiset{retries - 1} else multiset{})
  }

  /** One more execution uses up its message, and no other. */
  lemma QueueLaw(sample: Sample, attempts: seq<Attempt>, last: Attempt)
    requires AllComplete(attempts) && Complete(last.table)
    requires last.message < |Outcome(sample, attempts).queued|
    ensures AllComplete(attempts + [last])
    ensures var before := Outcome(sample, attempts).queued;
            multiset(Outcome(sample, attempts + [last]).queued) + multiset{before[last.message]}
              == multiset(before) + Leaves(last, before[last.message])
  {
    var before := Outcome(sample, attempts).queued;
    OneMoreExecution(sample, attempts, last);
    WithoutOne(before, last.message);
  }

  lemma WithoutOne(queued: seq<nat>, i: nat)
    requires i < |queued|
    ensures multiset(Without(queued, i)) + multiset{queued[i]} == multiset(queued)
  {
    assert queued == queued[..i] + [queued[i]] + queued[i + 1..];
  }

  lemma OneMoreExecution(sample: Sample, attempts: seq<Attempt>, last: Attempt)
    requires AllComplete(attempts) && Complete(last.table)
    ensures AllComplete(attempts + [last])
    ensures Outcome(sample, attempts + [last]) == After(sample, Outcome(sample, attempts), last)
  {
    assert (attempts + [last])[..|attempts|] == attempts;
  }

  /** It works on the first message, and either raises before writing or is given up. */
  predicate Fails(attempt: Attempt) {
    attempt.message == 0 && (attempt.fate.Abandoned? || (attempt.raisesEarly && attempt.fate.Acknowledged?))
  }

  predicate AllFail(attempts: seq<Attempt>) {
    forall i :: 0 <= i < |attempts| ==> Fails(attempts[i])
  }

  /** Executions that raised before writing; those given up do not count. */
  function Raises(attempts: seq<Attempt>): nat {
    if attempts == [] then 0 else
      Raises(attempts[..|attempts| - 1]) + if attempts[|attempts| - 1].fate.Acknowledged? then 1 else 0
  }

  /** A check that fails is run again three times; after its fourth raise nothing is queued. */
  lemma {:induction false} FailuresAreRetried(sample: Sample, attempts: seq<Attempt>)
    requires AllComplete(attempts) && AllFail(attempts)
    ensures Outcome(sample, attempts) == Progress(if Raises(attempts) <= 3 then [3 - Raises(attempts)] else [], [])
  {
    if attempts != [] {
      FailuresAreRetried(sample, attempts[..|attempts| - 1]);
    }
  }

  /** When it then runs to its end, exactly its alerts are written, and the check is over. */
  lemma RetriedCheckWrites(sample: Sample, attempts: seq<Attempt>, last: Attempt)
    requires AllComplete(attempts) && AllFail(attempts) && Raises(attempts) <= 3
    requires Complete(last.table) && last.message == 0 && !last.raisesEarly && last.fate.Acknowledged?
    ensures AllComplete(attempts + [last])
    ensures Outcome(sample, attempts + [last])
         == Progress([], if last.persistRaises || Evaluation(last.table, sample) == [] then []
                         else [Evaluation(last.table, sample)])
  {
    FailuresAreRetried(sample, attempts);
    OneMoreExecution(sample, attempts, last);
  }

  /** Four raises end the check: no execution takes a message after them, and nothing is written. */
  lemma FourthRaiseIsLast(sample: Sample, attempts: seq<Attempt>, more: seq<Attempt>)
    requires AllComplete(attempts) && AllFail(attempts) && Raises(attempts) == 4 && AllComplete(more)
    ensures AllComplete(attempts + more)
    ensures Outcome(sample, attempts + more) == Progress([], [])
  {
    FailuresAreRetried(sample, attempts);
    NothingMore(sample, attempts, more);
  }

  lemma {:induction false} NothingMore(sample: Sample, attempts: seq<Attempt>, more: seq<Attempt>)
    requires AllComplete(attempts) && AllComplete(more) && Outcome(sample, attempts).queued == []
    ensures AllComplete(attempts + more) && Outcome(sample, attempts + more) == Outcome(sample, attempts)
    decreases |more|
  {
    if more == [] {
      assert attempts + more == attempts;
    } else {
      NothingLeft(sample, attempts, more[0]);
      NothingMore(sample, attempts + [more[0]], more[1..]);
      AppendIsAssociative(attempts, [more[0]], more[1..]);
      assert [more[0]] + more[1..] == more;
    }
  }

  /** Nothing happens once nothing is queued. */
  lemma NothingLeft(sample: Sample, attempts: seq<Attempt>, last: Attempt)
    requires AllComplete(attempts) && Complete(last.table) && Outcome(sample, attempts).queued == []
    ensures AllComplete(attempts + [last]) && Outcome(sample, attempts + [last]) == Outcome(sample, attempts)
  {
    OneMoreExecution(sample, attempts, last);
  }

  /** Executions that ran to their end although their message was handed out again. */
  function Redeliveries(attempts: seq<Attempt>): nat {
    if attempts == [] then 0 else
      Redeliveries(attempts[..|attempts| - 1]) + if attempts[|attempts| - 1].fate.Redelivered? then 1 else 0
  }

  /** Batches written and messages still queued: one, and one more for each redelivery at most. */
  lemma {:induction false} BatchesBounded(sample: Sample, attempts: seq<Attempt>)
    requires AllComplete(attempts)
    ensures var s := Outcome(sample, attempts); |s.batches| + |s.queued| <= 1 + Redeliveries(attempts)
  {
    if attempts != [] {
      BatchesBounded(sample, attempts[..|attempts| - 1]);
    }
  }

  predicate AllPossible(attempts: seq<Attempt>) {
    forall i :: 0 <= i < |attempts| ==> Possible(attempts[i].table)
  }

  lemma {:induction false} NoBreachNoBatch(sample: Sample, attempts: seq<Attempt>)
    requires AllPossible(attempts) && !CanBreach(sample)
    ensures Outcome(sample, attempts).batches == []
  {
    if attempts != [] {
      NoBreachNoBatch(sample, attempts[..|attempts| - 1]);
      var table := attempts[|attempts| - 1].table;
      assert Possible(table);
      assert InRange(Co2Max, table[Co2Max]);
      EvaluationExact(table, sample);
    }
  }

  /** `n` executions in a row write their batch, and their message comes back. */
  function RedeliveredInARow(table: Table, n: nat): (attempts: seq<Attempt>)
    ensures |attempts| == n
    ensures forall i :: 0 <= i < n ==> attempts[i].table == table
  {
    if n == 0 then [] else RedeliveredInARow(table, n - 1) + [Attempt(0, table, false, false, Redelivered)]
  }

  /** An execution that writes and comes back adds its batch and leaves the queue as it was. */
  lemma RedeliveryRepeats(sample: Sample, table: Table, s: Progress)
    requires Complete(table) && Evaluation(table, sample) != [] && |s.queued| == 1
    ensures After(sample, s, Attempt(0, table, false, false, Redelivered))
         == Progress(s.queued, s.batches + [Evaluation(table, sample)])
  {
    assert Without(s.queued, 0) == [] && s.queued == [s.queued[0]];
  }

  lemma {:induction false} EachRedeliveryRepeats(sample: Sample, table: Table, n: nat)
    requires Complete(table) && Evaluation(table, sample) != []
    ensures Redeliveries(RedeliveredInARow(table, n)) == n
    ensures Outcome(sample, RedeliveredInARow(table, n)).queued == [MAX_RETRIES]
    ensures |Outcome(sample, RedeliveredInARow(table, n)).batches| == n
  {
    if n > 0 {
      EachRedeliveryRepeats(sample, table, n - 1);
      assert RedeliveredInARow(table, n)[..n - 1] == RedeliveredInARow(table, n - 1);
      RedeliveryRepeats(sample, table, Outcome(sample, RedeliveredInARow(table, n - 1)));
    }
  }

  /** A breach, `n` redeliveries, and then an execution that is acknowledged: n + 1 batches. */
  lemma RedeliveriesAreReached(sample: Sample, n: nat) returns (attempts: seq<Attempt>)
    requires CanBreach(sample)
    ensures AllPossible(attempts) && Redeliveries(attempts) == n
    ensures |Outcome(sample, attempts).batches| == n + 1
  {
    var table := FaultyTable(sample);
    EachRedeliveryRepeats(sample, table, n);
    var last := Attempt(0, table, false, false, Acknowledged);
    OneMoreExecution(sample, RedeliveredInARow(table, n), last);
    attempts := RedeliveredInARow(table, n) + [last];
    assert attempts[..n] == RedeliveredInARow(table, n);
  }

  lemma FaultyTable(sample: Sample) returns (table: Table)
    requires CanBreach(sample)
    ensures Possible(table) && Evaluation(table, sample) != []
  {
    CanBreachIff(sample);
    var row: Row, metric :| Admissible(row) && OutOfLimits(Effective(row), sample, metric);
    table := Effective(row);
    PossibleIffEffective(table);
    OneContribution(table, sample, metric);
  }

  /**
    With at most `again` redeliveries, a check writes at most `most` batches exactly when
    `again < most`, or no limits that can be set find the reading at fault.  So there
    is at most one batch exactly when no message comes back after its task has run.
   */
  lemma BatchesBoundedIff(sample: Sample, again: nat, most: nat)
    ensures (forall attempts :: AllPossible(attempts) && Redeliveries(attempts) <= again
               ==> |Outcome(sample, attempts).batches| <= most)
       <==> again < most || !CanBreach(sample)
  {
    forall attempts | AllPossible(attempts) && Redeliveries(attempts) <= again
      ensures |Outcome(sample, attempts).batches| <= 1 + again
      ensures !CanBreach(sample) ==> Outcome(sample, attempts).batches == []
    {
      BatchesBounded(sample, attempts);
      if !CanBreach(sample) {
        NoBreachNoBatch(sample, attempts);
      }
    }
    if CanBreach(sample) {
      var attempts := RedeliveriesAreReached(sample, again);
      assert |Outcome(sample, attempts).batches| == again + 1;
    }
  }

  datatype Member = Member(user: nat, token: Option<string>)

  /** `at` lists, in ascending order, positions of members with a token, whose members `picked` are. */
  ghost predicate Picks(members: seq<Member>, picked: seq<Member>, at: seq<nat>) {
    && |at| == |picked|
    && (forall i :: 0 <= i < |at| ==>
          at[i] < |members| && picked[i] == members[at[i]] && members[at[i]].token.Some?)
    && (forall i, j :: 0 <= i < j < |at| ==> at[i] < at[j])
  }

  /**
    Members with a push token, in query order, each once; a failing enqueue ends the loop,
    and then those left out all come after those sent to.
   */
  method DispatchPush(members: seq<Member>, enqueueRaisesAt: nat) returns (sent: seq<Member>, ghost at: seq<nat>)
    ensures Picks(members, sent, at) && |sent| <= enqueueRaisesAt
    ensures forall j :: 0 <= j < |members| && members[j].token.Some? && j !in at ==>
              |sent| == enqueueRaisesAt && forall i :: 0 <= i < |at| ==> at[i] < j
  {
    var addressed := [];
    at := [];
    for i := 0 to |members|
      invariant Picks(members, addressed, at)
      invariant forall k :: 0 <= k < |at| ==> at[k] < i
      invariant forall j :: 0 <= j < i && members[j].token.Some? ==> j in at
    {
      if members[i].token.Some? {
        PicksOneMore(members, addressed, at, i);
        addressed, at := addressed + [members[i]], at + [i];
      }
    }
    sent := [];
    for i := 0 to |addressed|
      invariant sent == addressed[..i] && i <= enqueueRaisesAt
    {
      if i == enqueueRaisesAt {
        LeftOut(at, i);
        PicksPrefix(members, addressed, at, i);
        at := at[..i];
        return;
      }
      sent := sent + [addressed[i]];
    }
  }

  lemma PicksPrefix(members: seq<Member>, picked: seq<Member>, at: seq<nat>, n: nat)
    requires Picks(members, picked, at) && n <= |at|
    ensures Picks(members, picked[..n], at[..n])
  {
  }

  lemma PicksOneMore(members: seq<Member>, picked: seq<Member>, at: seq<nat>, i: nat)
    requires Picks(members, picked, at) && forall k :: 0 <= k < |at| ==> at[k] < i
    requires i < |members| && members[i].token.Some?
    ensures Picks(members, picked + [members[i]], at + [i])
  {
  }

  lemma LeftOut(at: seq<nat>, n: nat)
    requires n <= |at| && forall i, j :: 0 <= i < j < |at| ==> at[i] < at[j]
    ensures forall j :: j in at && j !in at[..n] ==> forall i :: 0 <= i < n ==> at[i] < j
  {
    assert forall i :: 0 <= i < n ==> at[i] in at[..n];
    forall j | j in at && j !in at[..n]
      ensures forall i :: 0 <= i < n ==> at[i] < j
    {
      var k :| 0 <= k < |at| && at[k] == j;
    }
  }

  // ---------------------------------------------------------------- end to end

  /** A committed row of the window, or the globals of a failed read in it, justify the alert. */
  ghost predicate JustifiedWithin(t: State, sample: Sample, alert: Alert, from: int, to: int) {
    exists at :: from <= at <= to && JustifiedAt(t, sample, alert, at)
  }

  ghost predicate JustifiedAt(t: State, sample: Sample, alert: Alert, at: int) {
    || (exists i :: InEffect(t.history, i, at) && Justified(Effective(t.history[i].row), sample, alert))
    || (at in t.failedReads && Justified(Globals(), sample, alert))
  }

  /**
    Every event a check writes, on whatever table its load was served, strictly breaches a
    limit that was in effect at some instant of [t - 300 - d, t], or a global default
    that a failed read put in its place.
   */
  lemma AlertsAreSound(d: nat, row: Row, start: int, steps: seq<Step>, t: State, load: int, sample: Sample)
    requires Runs(d, Initial(row, start), steps, t) && 0 <= load < |t.loads|
    ensures Complete(t.loads[load].table)
    ensures forall alert :: alert in Evaluation(t.loads[load].table, sample) ==>
              JustifiedWithin(t, sample, alert, t.loads[load].at - 300 - d, t.loads[load].at)
  {
    BoundedStaleness(d, row, start, steps, t);
    var table, now := t.loads[load].table, t.loads[load].at;
    assert SourcedWithin(t, table, now - 300 - d, now);
    var at :| now - 300 - d <= at <= now && Sourced(t, table, at);
    assert Complete(table);
    EvaluationExact(table, sample);
    forall alert | alert in Evaluation(table, sample)
      ensures JustifiedWithin(t, sample, alert, now - 300 - d, now)
    {
      if i :| InEffect(t.history, i, at) && table == Effective(t.history[i].row) {
        assert Justified(Effective(t.history[i].row), sample, alert);
      }
      assert JustifiedAt(t, sample, alert, at);
    }
  }

  /** The execution got as far as loading its table. */
  predicate Loaded(attempt: Attempt) {
    !attempt.fate.Abandoned? && !attempt.raisesEarly
  }

  /** Execution k, if it got that far, ran on the table that load served[k] returned. */
  predicate ServedBy(t: State, attempts: seq<Attempt>, served: seq<nat>) {
    && |served| == |attempts|
    && forall k :: 0 <= k < |attempts| && Loaded(attempts[k]) ==>
         served[k] < |t.loads| && attempts[k].table == t.loads[served[k]].table
  }

  /** Execution k took a queued message, and ran to its end without an error. */
  predicate Ran(sample: Sample, attempts: seq<Attempt>, k: nat)
    requires AllComplete(attempts) && k < |attempts|
  {
    && attempts[k].message < |Outcome(sample, attempts[..k]).queued|
    && !attempts[k].raisesEarly && !attempts[k].persistRaises && !attempts[k].fate.Abandoned?
  }

  /** It ran to its end, and found the alert on its table. */
  predicate Wrote(sample: Sample, attempts: seq<Attempt>, k: nat, alert: Alert)
    requires AllComplete(attempts) && k < |attempts|
  {
    Ran(sample, attempts, k) && alert in Evaluation(attempts[k].table, sample)
  }

  lemma BatchEvent(device: nat, readingTime: int, batches: seq<seq<Alert>>, event: AlertEvent)
    requires |batches| <= 1 && event in Concat(device, readingTime, batches)
    ensures batches != [] && event.alert in batches[0] && event == AlertEvent(device, event.alert, readingTime)
  {
    assert batches[1..] == [];
  }

  /** An event comes from an earlier execution, or the last one wrote it. */
  lemma LastEvent(sample: Sample, attempts: seq<Attempt>, device: nat, readingTime: int, event: AlertEvent)
    requires AllComplete(attempts) && attempts != []
    requires event in Concat(device, readingTime, Outcome(sample, attempts).batches)
    ensures var n := |attempts| - 1;
            || event in Concat(device, readingTime, Outcome(sample, attempts[..n]).batches)
            || (Wrote(sample, attempts, n, event.alert) && event == AlertEvent(device, event.alert, readingTime))
  {
    var n := |attempts| - 1;
    var before, last := Outcome(sample, attempts[..n]), AttemptBatches(sample, attempts[n]);
    ConcatSplits(device, readingTime, before.batches, last);
    if event !in Concat(device, readingTime, before.batches) {
      BatchEvent(device, readingTime, last, event);
    }
  }

  /** An event that a check leaves behind was written by one of its executions. */
  lemma {:induction false} EventSource(sample: Sample, attempts: seq<Attempt>,
                                       device: nat, readingTime: int, event: AlertEvent) returns (k: nat)
    requires AllComplete(attempts) && event in Concat(device, readingTime, Outcome(sample, attempts).batches)
    ensures k < |attempts| && Wrote(sample, attempts, k, event.alert)
    ensures event == AlertEvent(device, event.alert, readingTime)
  {
    k := |attempts| - 1;
    var before := attempts[..k];
    LastEvent(sample, attempts, device, readingTime, event);
    if event in Concat(device, readingTime, Outcome(sample, before).batches) {
      k := EventSource(sample, before, device, readingTime, event);
      WroteEarlier(sample, attempts, |before|, k, event.alert);
    }
  }

  lemma WroteEarlier(sample: Sample, attempts: seq<Attempt>, n: nat, k: nat, alert: Alert)
    requires AllComplete(attempts) && k < n <= |attempts|
    ensures Wrote(sample, attempts[..n], k, alert) <==> Wrote(sample, attempts, k, alert)
  {
    assert attempts[..n][..k] == attempts[..k] && attempts[..n][k] == attempts[k];
  }

  /** What an execution wrote is left behind. */
  lemma {:induction false} WrittenIsLeft(sample: Sample, attempts: seq<Attempt>, device: nat, readingTime: int,
                                         k: nat, alert: Alert)
    requires AllComplete(attempts) && k < |attempts| && Wrote(sample, attempts, k, alert)
    ensures AlertEvent(device, alert, readingTime) in Concat(device, readingTime, Outcome(sample, attempts).batches)
  {
    var n := |attempts| - 1;
    if k < n {
      WroteEarlier(sample, attempts, n, k, alert);
      WrittenIsLeft(sample, attempts[..n], device, readingTime, k, alert);
      EarlierIsLeft(sample, attempts, device, readingTime, AlertEvent(device, alert, readingTime));
    } else {
      LastIsLeft(sample, attempts, device, readingTime, alert);
    }
  }

  lemma EarlierIsLeft(sample: Sample, attempts: seq<Attempt>, device: nat, readingTime: int, event: AlertEvent)
    requires AllComplete(attempts) && attempts != []
    requires event in Concat(device, readingTime, Outcome(sample, attempts[..|attempts| - 1]).batches)
    ensures event in Concat(device, readingTime, Outcome(sample, attempts).batches)
  {
    var n := |attempts| - 1;
    ConcatSplits(device, readingTime, Outcome(sample, attempts[..n]).batches, AttemptBatches(sample, attempts[n]));
  }

  lemma LastIsLeft(sample: Sample, attempts: seq<Attempt>, device: nat, readingTime: int, alert: Alert)
    requires AllComplete(attempts) && attempts != [] && Wrote(sample, attempts, |attempts| - 1, alert)
    ensures AlertEvent(device, alert, readingTime) in Concat(device, readingTime, Outcome(sample, attempts).batches)
  {
    var n := |attempts| - 1;
    ConcatSplits(device, readingTime, Outcome(sample, attempts[..n]).batches, AttemptBatches(sample, attempts[n]));
    OneBatch(device, readingTime, sample, attempts[n]);
    EventOfAlert(device, Evaluation(attempts[n].table, sample), readingTime, alert);
  }

  lemma EventOfAlert(device: nat, alerts: seq<Alert>, readingTime: int, alert: Alert)
    requires alert in alerts
    ensures AlertEvent(device, alert, readingTime) in EventsOf(device, alerts, readingTime)
  {
    var i :| 0 <= i < |alerts| && alerts[i] == alert;
    assert EventsOf(device, alerts, readingTime)[i] == AlertEvent(device, alert, readingTime);
  }

  /** A check leaves exactly the events its executions wrote: justified ones of the tables they ran on. */
  lemma EventsIff(sample: Sample, attempts: seq<Attempt>, device: nat, readingTime: int, alert: Alert)
    requires AllComplete(attempts)
    ensures AlertEvent(device, alert, readingTime) in Concat(device, readingTime, Outcome(sample, attempts).batches)
       <==> exists k: nat :: k < |attempts| && Ran(sample, attempts, k) && Justified(attempts[k].table, sample, alert)
  {
    var event := AlertEvent(device, alert, readingTime);
    if event in Concat(device, readingTime, Outcome(sample, attempts).batches) {
      var k := EventSource(sample, attempts, device, readingTime, event);
      EvaluationExact(attempts[k].table, sample);
      assert Ran(sample, attempts, k) && Justified(attempts[k].table, sample, alert);
    }
    if k: nat :| k < |attempts| && Ran(sample, attempts, k) && Justified(attempts[k].table, sample, alert) {
      EvaluationExact(attempts[k].table, sample);
      WrittenIsLeft(sample, attempts, device, readingTime, k, alert);
    }
  }

  /**
    Every event a check leaves behind, over all its executions, was written by one of them,
    and strictly breaches a limit in effect within the staleness window of its load.
   */
  lemma DeliveredEventsAreSound(d: nat, row: Row, start: int, steps: seq<Step>, t: State, served: seq<nat>,
                                attempts: seq<Attempt>, device: nat, readingTime: int, sample: Sample)
    requires Runs(d, Initial(row, start), steps, t) && AllComplete(attempts) && ServedBy(t, attempts, served)
    ensures forall event :: event in Concat(device, readingTime, Outcome(sample, attempts).batches) ==>
              && event == AlertEvent(device, event.alert, readingTime)
              && SoundEvent(d, t, attempts, served, sample, event.alert)
  {
    forall event | event in Concat(device, readingTime, Outcome(sample, attempts).batches)
      ensures event == AlertEvent(device, event.alert, readingTime)
      ensures SoundEvent(d, t, attempts, served, sample, event.alert)
    {
      var k := EventSource(sample, attempts, device, readingTime, event);
      AlertsAreSound(d, row, start, steps, t, served[k], sample);
      assert SoundFrom(d, t, attempts, served, sample, event.alert, k);
    }
  }

  /** Execution k wrote the alert, and it was justified in the staleness window of k's own load. */
  ghost predicate SoundFrom(d: nat, t: State, attempts: seq<Attempt>, served: seq<nat>,
                            sample: Sample, alert: Alert, k: nat)
    requires AllComplete(attempts) && ServedBy(t, attempts, served)
  {
    && k < |attempts|
    && Wrote(sample, attempts, k, alert)
    && var load := t.loads[served[k]];
       JustifiedWithin(t, sample, alert, load.at - 300 - d, load.at)
  }

  ghost predicate SoundEvent(d: nat, t: State, attempts: seq<Attempt>, served: seq<nat>, sample: Sample, alert: Alert)
    requires AllComplete(attempts) && ServedBy(t, attempts, served)
  {
    exists k :: SoundFrom(d, t, attempts, served, sample, alert, k)
  }
}
