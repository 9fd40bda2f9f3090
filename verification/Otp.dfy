/**
  SMS one-time passwords: three expiring Redis keys per phone, the per-phone record
  they refine, and what holds over whole runs of requests.
 */
module Otp {
  import opened Prelude
  import opened Redis

  datatype Settings = Settings(ttl: int, maxAttempts: int, cooldown: int) {
    predicate Valid() {
      ttl > 0 && maxAttempts > 0 && cooldown > 0
    }
  }

  datatype Key = CodeKey(phone: string) | AttemptsKey(phone: string) | CooldownKey(phone: string)

  datatype OtpError = CooldownActive

  // ---------------------------------------------------------------- the record

  /** What one phone's keys stand for: its latest issue, and how it was used. */
  datatype Record = NoIssue | Issued(hash: string, at: int, wrong: nat, used: bool)

  type Keys = map<Key, Entry<Value>>

  type Records = map<string, Record>

  function RecordOf(records: Records, phone: string): Record {
    if phone in records then records[phone] else NoIssue
  }

  /** The code may still be burned or guessed at, leaving its age aside. */
  predicate Open(s: Settings, record: Record) {
    record.Issued? && !record.used && record.wrong < s.maxAttempts
  }

  predicate Comparable(s: Settings, record: Record, now: int) {
    Open(s, record) && now < record.at + s.ttl
  }

  predicate Cooling(s: Settings, record: Record, now: int) {
    record.Issued? && now < record.at + s.cooldown
  }

  predicate Accepts(s: Settings, record: Record, hash: string, now: int) {
    Comparable(s, record, now) && record.hash == hash
  }

  function AfterIssue(s: Settings, record: Record, hash: string, now: int): Record {
    if Cooling(s, record, now) then record else Issued(hash, now, 0, false)
  }

  function AfterVerify(s: Settings, record: Record, hash: string, now: int): Record {
    if !Comparable(s, record, now) then record
    else if hash == record.hash then record.(used := true)
    else record.(wrong := record.wrong + 1)
  }

  /** The three keys of a phone hold exactly what its record says. */
  ghost predicate Refines(s: Settings, store: Keys, phone: string, record: Record) {
    && (CodeKey(phone) in store <==> Open(s, record))
    && (AttemptsKey(phone) in store <==> Open(s, record))
    && (CooldownKey(phone) in store <==> record.Issued?)
    && (Open(s, record) ==>
          && store[CodeKey(phone)] == Expiring(Text(record.hash), record.at + s.ttl)
          && store[AttemptsKey(phone)] == Expiring(Number(record.wrong), record.at + s.ttl))
    && (record.Issued? ==>
          store[CooldownKey(phone)] == Expiring(Number(1), record.at + s.cooldown))
  }

  // ---------------------------------------------------------------- runs and their log

  datatype Event =
    | Issue(phone: string, hash: string, now: int)
    | Verify(phone: string, hash: string, now: int)

  /** What a caller, or an observer of the comparisons, sees of one event. */
  datatype Outcome =
    | Sent(phone: string, hash: string, at: int)
    | Refused(phone: string, at: int)
    | Verified(phone: string, at: int, compared: bool, accepted: bool)

  function Step(s: Settings, records: Records, e: Event): Records {
    var record := RecordOf(records, e.phone);
    records[e.phone := if e.Issue? then AfterIssue(s, record, e.hash, e.now)
                       else AfterVerify(s, record, e.hash, e.now)]
  }

  function OutcomeOf(s: Settings, records: Records, e: Event): Outcome {
    var record := RecordOf(records, e.phone);
    match e
    case Issue(phone, hash, now) =>
      if Cooling(s, record, now) then Refused(phone, now) else Sent(phone, hash, now)
    case Verify(phone, hash, now) =>
      Verified(phone, now, Comparable(s, record, now), Accepts(s, record, hash, now))
  }

  /** The records after a run that starts with no key set. */
  function Run(s: Settings, events: seq<Event>): Records {
    RunFrom(s, map[], events)
  }

  function RunFrom(s: Settings, records: Records, events: seq<Event>): Records {
    if events == [] then records else
      Step(s, RunFrom(s, records, events[..|events| - 1]), events[|events| - 1])
  }

  function Log(s: Settings, events: seq<Event>): seq<Outcome> {
    if events == [] then [] else
      var before := events[..|events| - 1];
      Log(s, before) + [OutcomeOf(s, Run(s, before), events[|events| - 1])]
  }

  predicate Sequential(events: seq<Event>) {
    forall i, j :: 0 <= i < j < |events| ==> events[i].now <= events[j].now
  }

  /** Keys of other phones are untouched, so serving one phone keeps all records refined. */
  lemma ServingOnePhone(s: Settings, before: Keys, after: Keys, events: seq<Event>, e: Event)
    requires forall phone :: Refines(s, before, phone, RecordOf(Run(s, events), phone))
    requires forall key: Key :: key.phone != e.phone ==>
               (key in after <==> key in before) && (key in before ==> after[key] == before[key])
    requires Refines(s, after, e.phone, RecordOf(Step(s, Run(s, events), e), e.phone))
    ensures forall phone :: Refines(s, after, phone, RecordOf(Run(s, events + [e]), phone))
  {
    assert (events + [e])[..|events|] == events;
    forall phone
      ensures Refines(s, after, phone, RecordOf(Run(s, events + [e]), phone))
    {
      assert Refines(s, before, phone, RecordOf(Run(s, events), phone));
    }
  }

  /** What the keys of a phone show at an instant: a code that can be compared, or none. */
  lemma LiveKeys(s: Settings, keys: Keys, phone: string, record: Record, now: int)
    requires Refines(s, keys, phone, record)
    ensures Lookup(keys, CodeKey(phone), now) == if Comparable(s, record, now) then Some(Text(record.hash)) else None
    ensures Comparable(s, record, now) ==>
              && Lookup(keys, AttemptsKey(phone), now) == Some(Number(record.wrong))
              && keys[AttemptsKey(phone)] == Expiring(Number(record.wrong), record.at + s.ttl)
  {
  }

  /** The keys once a code has been presented: burned, counted against, or left alone. */
  function KeysAfterVerify(s: Settings, keys: Keys, phone: string, record: Record, hash: string, now: int): Keys {
    if !Comparable(s, record, now) then keys
    else if hash == record.hash || record.wrong + 1 >= s.maxAttempts then keys - {CodeKey(phone), AttemptsKey(phone)}
    else keys[AttemptsKey(phone) := Expiring(Number(record.wrong + 1), record.at + s.ttl)]
  }

  /** The keys once a code has been asked for: all three set again, or left alone. */
  function KeysAfterIssue(s: Settings, keys: Keys, phone: string, record: Record, hash: string, now: int): Keys {
    if Cooling(s, record, now) then keys
    else keys[CodeKey(phone) := Expiring(Text(hash), now + s.ttl)]
             [AttemptsKey(phone) := Expiring(Number(0), now + s.ttl)]
             [CooldownKey(phone) := Expiring(Number(1), now + s.cooldown)]
  }

  lemma IssueKeepsRefinement(s: Settings, keys: Keys, events: seq<Event>, e: Event, after: Keys)
    requires s.Valid() && forall phone :: Refines(s, keys, phone, RecordOf(Run(s, events), phone))
    requires e.Issue? && after == KeysAfterIssue(s, keys, e.phone, RecordOf(Run(s, events), e.phone), e.hash, e.now)
    ensures forall phone :: Refines(s, after, phone, RecordOf(Run(s, events + [e]), phone))
  {
    assert Refines(s, keys, e.phone, RecordOf(Run(s, events), e.phone));
    ServingOnePhone(s, keys, after, events, e);
  }

  lemma VerifyKeepsRefinement(s: Settings, keys: Keys, events: seq<Event>, e: Event, after: Keys)
    requires forall phone :: Refines(s, keys, phone, RecordOf(Run(s, events), phone))
    requires e.Verify? && after == KeysAfterVerify(s, keys, e.phone, RecordOf(Run(s, events), e.phone), e.hash, e.now)
    ensures forall phone :: Refines(s, after, phone, RecordOf(Run(s, events + [e]), phone))
  {
    assert Refines(s, keys, e.phone, RecordOf(Run(s, events), e.phone));
    ServingOnePhone(s, keys, after, events, e);
  }

  lemma LogGrows(s: Settings, events: seq<Event>, e: Event)
    ensures Log(s, events + [e]) == Log(s, events) + [OutcomeOf(s, Run(s, events), e)]
    ensures Comparisons(Log(s, events + [e])) == Comparisons(Log(s, events))
              + if Compared(OutcomeOf(s, Run(s, events), e)) then [OutcomeOf(s, Run(s, events), e)] else []
  {
    assert (events + [e])[..|events|] == events;
    var log := Log(s, events + [e]);
    assert log[..|log| - 1] == Log(s, events);
  }

  // ---------------------------------------------------------------- the service

  class OtpService {
    const settings: Settings
    const hash: string -> string
    const redis: RedisStore<Key>
    ghost var events: seq<Event>
    ghost var comparisons: seq<Outcome>

    ghost predicate Valid()
      reads this, redis
    {
      && settings.Valid()
      && (forall phone :: Refines(settings, redis.store, phone, RecordOf(Run(settings, events), phone)))
      && comparisons == Comparisons(Log(settings, events))
    }

    constructor (settings: Settings, hash: string -> string)
      requires settings.Valid()
      ensures Valid() && events == [] && fresh(redis)
      ensures this.settings == settings && this.hash == hash
    {
      this.settings := settings;
      this.hash := hash;
      redis := new RedisStore<Key>();
      events := [];
      comparisons := [];
    }

    /** `code` is the random draw; the plaintext is returned and only its hash stored. */
    method IssueCode(phone: string, code: string, now: int) returns (r: Result<string, OtpError>)
      requires Valid()
      modifies this, redis
      ensures Valid()
      ensures events == old(events) + [Issue(phone, hash(code), now)]
      ensures r == if Cooling(settings, RecordOf(Run(settings, old(events)), phone), now)
                   then Err(CooldownActive) else Ok(code)
      ensures Sequential(events) ==>
                (r == Err(CooldownActive) <==> SentRecently(settings, Log(settings, old(events)), phone, now))
      ensures comparisons == old(comparisons)
    {
      ghost var event := Issue(phone, hash(code), now);
      ghost var keys, record := redis.store, RecordOf(Run(settings, events), phone);
      assert Refines(settings, keys, phone, record);
      if Sequential(events + [event]) {
        RefusedIffSentRecently(settings, events, phone, hash(code), now);
      }
      r := SetKeys(phone, code, now, record);
      IssueKeepsRefinement(settings, keys, events, event, redis.store);
      LogGrows(settings, events, event);
      events := events + [event];
    }

    method VerifyCode(phone: string, code: string, now: int) returns (ok: bool)
      requires Valid()
      modifies this, redis
      ensures Valid()
      ensures events == old(events) + [Verify(phone, hash(code), now)]
      ensures ok == Accepts(settings, RecordOf(Run(settings, old(events)), phone), hash(code), now)
      ensures Sequential(events) ==> (ok <==> Deserved(settings, Log(settings, old(events)), phone, hash(code), now))
    {
      ghost var event := Verify(phone, hash(code), now);
      ghost var keys, record := redis.store, RecordOf(Run(settings, events), phone);
      ghost var compared;
      if Sequential(events + [event]) {
        VerifyAcceptsIffDeserved(settings, events, phone, hash(code), now);
      }
      assert Refines(settings, keys, phone, record);
      ok, compared := CheckKeys(phone, code, now, record);
      if compared {
        comparisons := comparisons + [OutcomeOf(settings, Run(settings, events), event)];
      }
      VerifyKeepsRefinement(settings, keys, events, event, redis.store);
      LogGrows(settings, events, event);
      events := events + [event];
    }

    /** What issuing does to the three keys of a phone with that record. */
    method SetKeys(phone: string, code: string, now: int, ghost record: Record) returns (r: Result<string, OtpError>)
      requires settings.Valid() && Refines(settings, redis.store, phone, record)
      modifies redis
      ensures redis.store == KeysAfterIssue(settings, old(redis.store), phone, record, hash(code), now)
      ensures r == if Cooling(settings, record, now) then Err(CooldownActive) else Ok(code)
    {
      var cooling := redis.Get(CooldownKey(phone), now);
      if cooling.Some? {
        return Err(CooldownActive);
      }
      redis.SetEx(CodeKey(phone), settings.ttl, Text(hash(code)), now);
      redis.SetEx(AttemptsKey(phone), settings.ttl, Number(0), now);
      redis.SetEx(CooldownKey(phone), settings.cooldown, Number(1), now);
      r := Ok(code);
    }

    /** What verifying does to them; `compared` tells whether the hashes were compared. */
    method CheckKeys(phone: string, code: string, now: int, ghost record: Record)
      returns (ok: bool, ghost compared: bool)
      requires settings.Valid() && Refines(settings, redis.store, phone, record)
      modifies redis
      ensures redis.store == KeysAfterVerify(settings, old(redis.store), phone, record, hash(code), now)
      ensures ok == Accepts(settings, record, hash(code), now)
      ensures compared == Comparable(settings, record, now)
    {
      ghost var keys := redis.store;
      LiveKeys(settings, keys, phone, record, now);
      var storedHash := redis.Get(CodeKey(phone), now);
      if storedHash.None? {
        return false, false;
      }
      var stored := redis.Get(AttemptsKey(phone), now);
      var attempts := if stored.Some? then stored.value.number else 0;
      if attempts >= settings.maxAttempts {
        // The code burns the keys here, but a live code never has a spent counter.
        assert false;
      }
      compared := true;
      if storedHash.value.text == hash(code) {
        BurnKeys(phone);
        ok := true;
      } else {
        var newAttempts := redis.Incr(AttemptsKey(phone), now);
        if newAttempts >= settings.maxAttempts {
          BurnKeys(phone);
          assert redis.store == keys - {CodeKey(phone), AttemptsKey(phone)};
        }
        ok := false;
      }
    }

    method BurnKeys(phone: string)
      modifies redis
      ensures redis.store == old(redis.store) - {CodeKey(phone), AttemptsKey(phone)}
    {
      redis.Delete(CodeKey(phone));
      redis.Delete(AttemptsKey(phone));
    }
  }

  // ---------------------------------------------------------------- acceptance, from the log alone

  predicate SentTo(o: Outcome, phone: string) {
    o.Sent? && o.phone == phone
  }

  predicate AcceptedFor(o: Outcome, phone: string) {
    o.Verified? && o.phone == phone && o.accepted
  }

  predicate RejectedFor(o: Outcome, phone: string) {
    o.Verified? && o.phone == phone && !o.accepted
  }

  predicate LatestSend(log: seq<Outcome>, phone: string, j: int) {
    && 0 <= j < |log|
    && SentTo(log[j], phone)
    && forall i :: j < i < |log| ==> !SentTo(log[i], phone)
  }

  predicate UsedAfter(log: seq<Outcome>, phone: string, j: int) {
    exists i :: 0 <= i < |log| && j < i && AcceptedFor(log[i], phone)
  }

  /** Rejected verifications of `phone` after position `j`. */
  function WrongTries(log: seq<Outcome>, phone: string, j: int): nat {
    if |log| == 0 || |log| - 1 <= j then 0 else
      WrongTries(log[..|log| - 1], phone, j) + if RejectedFor(log[|log| - 1], phone) then 1 else 0
  }

  /** The record tells the story of the log up to `now`. */
  ghost predicate Summarises(s: Settings, log: seq<Outcome>, phone: string, record: Record, now: int, j: int) {
    if record.NoIssue? then
      forall i :: 0 <= i < |log| ==> !SentTo(log[i], phone)
    else
      && LatestSend(log, phone, j)
      && log[j].hash == record.hash
      && log[j].at == record.at
      && (record.used <==> UsedAfter(log, phone, j))
      && record.wrong <= s.maxAttempts
      && (!record.used && now < record.at + s.ttl ==>
            record.wrong == if WrongTries(log, phone, j) < s.maxAttempts
                            then WrongTries(log, phone, j) else s.maxAttempts)
  }

  lemma {:induction false} RecordSummarisesLog(s: Settings, events: seq<Event>, phone: string, now: int)
    returns (j: int)
    requires s.Valid() && Sequential(events)
    requires forall i :: 0 <= i < |events| ==> events[i].now <= now
    ensures Summarises(s, Log(s, events), phone, RecordOf(Run(s, events), phone), now, j)
  {
    if events == [] {
      j := -1;
    } else {
      var before, e := events[..|events| - 1], events[|events| - 1];
      j := RecordSummarisesLog(s, before, phone, e.now);
      assert before + [e] == events;
      LogGrows(s, before, e);
      j := SummaryStep(s, Run(s, before), Log(s, before), e, phone, j);
    }
  }

  /** One more event, seen from its own instant. */
  lemma SummaryStep(s: Settings, records: Records, log: seq<Outcome>, e: Event, phone: string, j: int) returns (k: int)
    requires s.Valid() && Summarises(s, log, phone, RecordOf(records, phone), e.now, j)
    ensures Summarises(s, log + [OutcomeOf(s, records, e)], phone, RecordOf(Step(s, records, e), phone), e.now, k)
  {
    var record, last := RecordOf(records, phone), OutcomeOf(s, records, e);
    var longer := log + [last];
    assert forall i :: 0 <= i < |log| ==> longer[i] == log[i];
    assert longer[..|log|] == log && longer[|log|] == last;
    if e.phone == phone && e.Issue? && !Cooling(s, record, e.now) {
      k := |log|;
      assert !UsedAfter(longer, phone, k);
      assert WrongTries(longer, phone, k) == 0;
    } else {
      k := j;
      if record.Issued? {
        UsedAfterExtends(log, last, phone, j);
        assert WrongTries(longer, phone, j) == WrongTries(log, phone, j) + if RejectedFor(last, phone) then 1 else 0;
      }
    }
  }

  lemma UsedAfterExtends(log: seq<Outcome>, last: Outcome, phone: string, j: int)
    requires j < |log|
    ensures UsedAfter(log + [last], phone, j) <==> UsedAfter(log, phone, j) || AcceptedFor(last, phone)
  {
    var longer := log + [last];
    if UsedAfter(log, phone, j) {
      var i :| 0 <= i < |log| && j < i && AcceptedFor(log[i], phone);
      assert AcceptedFor(longer[i], phone);
    }
    if AcceptedFor(last, phone) {
      assert AcceptedFor(longer[|log|], phone);
    }
  }

  /** A code was sent, is the latest one, young, unused, and has tries left. */
  ghost predicate Deserved(s: Settings, log: seq<Outcome>, phone: string, hash: string, now: int) {
    exists j ::
      && LatestSend(log, phone, j)
      && log[j].hash == hash
      && now < log[j].at + s.ttl
      && !UsedAfter(log, phone, j)
      && WrongTries(log, phone, j) < s.maxAttempts
  }

  /** Verification succeeds exactly when the log says the code deserves it. */
  lemma VerifyAcceptsIffDeserved(s: Settings, events: seq<Event>, phone: string, hash: string, now: int)
    requires s.Valid() && Sequential(events + [Verify(phone, hash, now)])
    ensures Accepts(s, RecordOf(Run(s, events), phone), hash, now)
       <==> Deserved(s, Log(s, events), phone, hash, now)
  {
    var all := events + [Verify(phone, hash, now)];
    assert forall i :: 0 <= i < |events| ==> all[i] == events[i];
    assert all[|events|].now == now;
    var j := RecordSummarisesLog(s, events, phone, now);
    var log := Log(s, events);
    if Deserved(s, log, phone, hash, now) {
      var k :| LatestSend(log, phone, k) && log[k].hash == hash && now < log[k].at + s.ttl
             && !UsedAfter(log, phone, k) && WrongTries(log, phone, k) < s.maxAttempts;
      assert SentTo(log[k], phone);
      assert k == j;
    }
  }

  // ---------------------------------------------------------------- sending, from the log alone

  /** The latest code was sent to the phone less than a cooldown ago. */
  ghost predicate SentRecently(s: Settings, log: seq<Outcome>, phone: string, now: int) {
    exists j :: LatestSend(log, phone, j) && now < log[j].at + s.cooldown
  }

  /** A code is sent exactly when none was sent within the cooldown before. */
  lemma RefusedIffSentRecently(s: Settings, events: seq<Event>, phone: string, hash: string, now: int)
    requires s.Valid() && Sequential(events + [Issue(phone, hash, now)])
    ensures Cooling(s, RecordOf(Run(s, events), phone), now) <==> SentRecently(s, Log(s, events), phone, now)
    ensures OutcomeOf(s, Run(s, events), Issue(phone, hash, now))
         == if SentRecently(s, Log(s, events), phone, now) then Refused(phone, now) else Sent(phone, hash, now)
  {
    var all := events + [Issue(phone, hash, now)];
    assert forall i :: 0 <= i < |events| ==> all[i] == events[i];
    assert all[|events|].now == now;
    var j := RecordSummarisesLog(s, events, phone, now);
    if SentRecently(s, Log(s, events), phone, now) {
      var k :| LatestSend(Log(s, events), phone, k) && now < Log(s, events)[k].at + s.cooldown;
      assert SentTo(Log(s, events)[k], phone);
      assert k == j;
    }
  }

  /** The outcome of one event: sent or refused for an issue, the verdict for a verification. */
  predicate Tells(e: Event, o: Outcome) {
    match e
    case Issue(phone, hash, now) => o == Sent(phone, hash, now) || o == Refused(phone, now)
    case Verify(phone, _, now) => o.Verified? && o.phone == phone && o.at == now
  }

  /** The log tells of every event, in order. */
  lemma {:induction false} LogTellsEvents(s: Settings, events: seq<Event>)
    ensures |Log(s, events)| == |events|
    ensures forall i :: 0 <= i < |events| ==> Tells(events[i], Log(s, events)[i])
  {
    if events != [] {
      LogTellsEvents(s, events[..|events| - 1]);
    }
  }

  // ---------------------------------------------------------------- comparisons in a window

  predicate Compared(o: Outcome) {
    o.Verified? && o.compared
  }

  function Comparisons(log: seq<Outcome>): seq<Outcome> {
    if log == [] then [] else
      var rest := Comparisons(log[..|log| - 1]);
      if Compared(log[|log| - 1]) then rest + [log[|log| - 1]] else rest
  }

  /** Comparisons made for `phone` from `lo` to `hi`, in a run that starts in `records`. */
  function ComparisonsIn(s: Settings, records: Records, events: seq<Event>, phone: string, lo: int, hi: int): nat
    decreases |events|
  {
    if events == [] then 0 else
      var o := OutcomeOf(s, records, events[0]);
      (if Compared(o) && o.phone == phone && lo <= o.at <= hi then 1 else 0)
      + ComparisonsIn(s, Step(s, records, events[0]), events[1..], phone, lo, hi)
  }

  /** Guesses the record still admits. */
  function Budget(s: Settings, record: Record): nat {
    if Open(s, record) then s.maxAttempts - record.wrong else 0
  }

  /** The earliest instant from `now` on at which a code can be sent. */
  function NextIssue(s: Settings, record: Record, now: int): int {
    if record.Issued? && now < record.at + s.cooldown then record.at + s.cooldown else now
  }

  /**
    From inside the window: what is left of the current code, plus full budgets for
    the codes still to come, when `codes` cooldowns reach past the window.
   */
  lemma {:induction false} ComparisonsBounded(s: Settings, records: Records, events: seq<Event>,
                                              phone: string, lo: int, now: int, hi: int, codes: nat)
    requires s.Valid() && Sequential(events) && lo <= now
    requires forall i :: 0 <= i < |events| ==> now <= events[i].now
    requires hi < NextIssue(s, RecordOf(records, phone), now) + codes * s.cooldown
    ensures ComparisonsIn(s, records, events, phone, lo, hi)
         <= Budget(s, RecordOf(records, phone)) + s.maxAttempts * codes
    decreases |events|
  {
    if events != [] {
      var e, rest := events[0], events[1..];
      var after := Step(s, records, e);
      if hi < e.now {
        NothingAfter(s, records, events, phone, lo, hi);
      } else if e.phone == phone && e.Issue? && !Cooling(s, RecordOf(records, phone), e.now) {
        assert codes >= 1;
        assert (codes - 1) * s.cooldown == codes * s.cooldown - s.cooldown;
        ComparisonsBounded(s, after, rest, phone, lo, e.now, hi, codes - 1);
        assert s.maxAttempts * (codes - 1) == s.maxAttempts * codes - s.maxAttempts;
      } else {
        ComparisonsBounded(s, after, rest, phone, lo, e.now, hi, codes);
      }
    }
  }

  lemma {:induction false} NothingAfter(s: Settings, records: Records, events: seq<Event>,
                                        phone: string, lo: int, hi: int)
    requires forall i :: 0 <= i < |events| ==> hi < events[i].now
    ensures ComparisonsIn(s, records, events, phone, lo, hi) == 0
    decreases |events|
  {
    if events != [] {
      NothingAfter(s, Step(s, records, events[0]), events[1..], phone, lo, hi);
    }
  }

  lemma {:induction false} WindowBoundFrom(s: Settings, records: Records, events: seq<Event>,
                                          phone: string, lo: int, length: nat)
    requires s.Valid() && Sequential(events)
    ensures ComparisonsIn(s, records, events, phone, lo, lo + length) <= s.maxAttempts * (length / s.cooldown + 2)
    decreases |events|
  {
    if events != [] && events[0].now < lo {
      WindowBoundFrom(s, Step(s, records, events[0]), events[1..], phone, lo, length);
    } else {
      var codes := length / s.cooldown + 1;
      assert length == s.cooldown * (length / s.cooldown) + length % s.cooldown;
      assert length < codes * s.cooldown;
      ComparisonsBounded(s, records, events, phone, lo, lo, lo + length, codes);
      assert s.maxAttempts * (codes + 1) == s.maxAttempts * codes + s.maxAttempts;
    }
  }

  /** Outcomes for `phone` timed from `lo` to `hi`. */
  function Within(outcomes: seq<Outcome>, phone: string, lo: int, hi: int): nat {
    if outcomes == [] then 0 else
      var o := outcomes[|outcomes| - 1];
      Within(outcomes[..|outcomes| - 1], phone, lo, hi) + if o.phone == phone && lo <= o.at <= hi then 1 else 0
  }

  lemma {:induction false} ComparisonsAtEnd(s: Settings, records: Records, events: seq<Event>, e: Event,
                                            phone: string, lo: int, hi: int)
    ensures ComparisonsIn(s, records, events + [e], phone, lo, hi)
         == ComparisonsIn(s, records, events, phone, lo, hi)
            + ComparisonsIn(s, RunFrom(s, records, events), [e], phone, lo, hi)
    decreases |events|
  {
    if events == [] {
      assert [] + [e] == [e];
    } else {
      var all, first := events + [e], Step(s, records, events[0]);
      assert all[1..] == events[1..] + [e] && all[0] == events[0];
      ComparisonsAtEnd(s, first, events[1..], e, phone, lo, hi);
      RunFromFront(s, records, events);
    }
  }

  lemma {:induction false} RunFromFront(s: Settings, records: Records, events: seq<Event>)
    requires events != []
    ensures RunFrom(s, records, events) == RunFrom(s, Step(s, records, events[0]), events[1..])
    decreases |events|
  {
    var n := |events| - 1;
    if n > 0 {
      assert events[1..][..n - 1] == events[..n][1..];
      RunFromFront(s, records, events[..n]);
    }
  }

  lemma {:induction false} ComparisonsAreLogged(s: Settings, events: seq<Event>, phone: string, lo: int, hi: int)
    ensures Within(Comparisons(Log(s, events)), phone, lo, hi) == ComparisonsIn(s, map[], events, phone, lo, hi)
  {
    if events != [] {
      var before, e := events[..|events| - 1], events[|events| - 1];
      ComparisonsAreLogged(s, before, phone, lo, hi);
      LoggedAtEnd(s, before, e, phone, lo, hi);
      assert before + [e] == events;
    }
  }

  lemma LoggedAtEnd(s: Settings, events: seq<Event>, e: Event, phone: string, lo: int, hi: int)
    requires Within(Comparisons(Log(s, events)), phone, lo, hi) == ComparisonsIn(s, map[], events, phone, lo, hi)
    ensures Within(Comparisons(Log(s, events + [e])), phone, lo, hi)
         == ComparisonsIn(s, map[], events + [e], phone, lo, hi)
  {
    ComparisonsAtEnd(s, map[], events, e, phone, lo, hi);
    LogGrows(s, events, e);
    OneComparison(s, Run(s, events), e, Comparisons(Log(s, events)), phone, lo, hi);
  }

  /** One more event adds as many comparisons to the log as it makes. */
  lemma OneComparison(s: Settings, records: Records, e: Event, made: seq<Outcome>, phone: string, lo: int, hi: int)
    ensures Within(made + if Compared(OutcomeOf(s, records, e)) then [OutcomeOf(s, records, e)] else [], phone, lo, hi)
         == Within(made, phone, lo, hi) + ComparisonsIn(s, records, [e], phone, lo, hi)
  {
    var o := OutcomeOf(s, records, e);
    assert (made + [o])[..|made|] == made && made + [] == made;
    assert ComparisonsIn(s, Step(s, records, e), [e][1..], phone, lo, hi) == 0;
  }

  /**
    Over any sequential run, the comparisons made for one phone in a window of
    length `length` number at most maxAttempts * (length / cooldown + 2).
   */
  lemma ComparisonWindowBound(s: Settings, events: seq<Event>, phone: string, lo: int, length: nat)
    requires s.Valid() && Sequential(events)
    ensures Within(Comparisons(Log(s, events)), phone, lo, lo + length) <= s.maxAttempts * (length / s.cooldown + 2)
  {
    ComparisonsAreLogged(s, events, phone, lo, lo + length);
    WindowBoundFrom(s, map[], events, phone, lo, length);
  }
}
