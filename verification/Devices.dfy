/**
  Device registration, the pairing handshake, provisioning and membership: each request
  is one transaction on the devices and user_devices tables plus one Redis key.
 */
module Devices {
  import opened Prelude
  import opened Redis

  /** The hex digest of a nonce under a secret. */
  type Mac = (string, string) -> string

  const CHALLENGE_TTL: int := 120

  const UNPROVISIONED: string := "UNPROVISIONED"
  const MOCK: string := "mock"

  /** `demo` remembers that the row was born paired as a demo device. */
  datatype Device = Device(uid: string, secret: string, paired: bool, demo: bool)

  /** What a run leaves behind, in order; a nonce is wasted when the commit after its use fails. */
  datatype Fact =
    | Challenged(device: nat, nonce: string, at: int)
    | Provisioned(device: nat)
    | Confirmed(device: nat, nonce: string, response: string, at: int)
    | Wasted(device: nat)

  /** Links are (device, user); a nonce key holds the latest challenge until used. */
  datatype State = State(
    devices: map<nat, Device>,
    links: set<(nat, nat)>,
    nonces: map<nat, Entry<string>>,
    facts: seq<Fact>)

  datatype DeviceError =
    | NotFound | RegisteredElsewhere | AlreadyPaired | ChallengeExpired | NonceMismatch | BadResponse
    | NoSuchUser | OnlyMember | Failed

  /** `newId` is the identifier a new row would get; the flags are the fates of the Redis call and of the commit. */
  datatype Request =
    | Demo(user: nat, uid: string, newId: nat, commitRaises: bool)
    | Challenge(user: nat, uid: string, newId: nat, nonce: string, now: int, redisRaises: bool, commitRaises: bool)
    | Confirm(user: nat, device: nat, nonce: string, response: string, now: int, redisRaises: bool, commitRaises: bool)
    | Provision(user: nat, device: nat, secret: string, commitRaises: bool)
    | Share(user: nat, device: nat, target: Option<nat>, commitRaises: bool)
    | Remove(user: nat, device: nat, member: nat, commitRaises: bool)

  // ---------------------------------------------------------------- queries

  predicate HasUid(devices: map<nat, Device>, uid: string) {
    exists d :: d in devices && devices[d].uid == uid
  }

  /** The unique index on hardware_uid makes the row unambiguous. */
  ghost predicate UniqueUids(devices: map<nat, Device>) {
    forall d, e :: d in devices && e in devices && devices[d].uid == devices[e].uid ==> d == e
  }

  ghost function FindUid(devices: map<nat, Device>, uid: string): (d: nat)
    requires HasUid(devices, uid)
    ensures d in devices && devices[d].uid == uid
  {
    var d :| d in devices && devices[d].uid == uid;
    d
  }

  function LinksOf(links: set<(nat, nat)>, device: nat): set<(nat, nat)> {
    set link | link in links && link.0 == device
  }

  predicate Allowed(s: State, device: nat, user: nat) {
    device in s.devices && (device, user) in s.links
  }

  function LowerChar(c: char): char {
    if 'A' <= c <= 'Z' then c - 'A' + 'a' else c
  }

  function Lower(text: string): (lower: string)
    ensures |lower| == |text|
    ensures forall i :: 0 <= i < |text| ==>
              lower[i] == if 'A' <= text[i] <= 'Z' then (text[i] as int + 32) as char else text[i]
  {
    if text == "" then "" else [LowerChar(text[0])] + Lower(text[1..])
  }

  /** The response is the hex digest of the nonce under the secret, in either case. */
  predicate Matches(mac: Mac, secret: string, nonce: string, response: string) {
    Lower(mac(secret, nonce)) == Lower(response)
  }

  // ---------------------------------------------------------------- transitions

  /** The reason a request is refused before anything is written. */
  ghost function Refusal(mac: Mac, s: State, r: Request): Option<DeviceError> {
    match r
    case Demo(user, uid, newId, _) =>
      if newId in s.devices || HasUid(s.devices, uid) then Some(Failed) else None
    case Challenge(user, uid, newId, _, _, _, _) =>
      if !HasUid(s.devices, uid) then if newId in s.devices then Some(Failed) else None
      else if (FindUid(s.devices, uid), user) !in s.links then Some(RegisteredElsewhere) else None
    case Confirm(user, device, nonce, response, now, _, _) =>
      if !Allowed(s, device, user) then Some(NotFound)
      else if s.devices[device].paired then Some(AlreadyPaired)
      else if device !in s.nonces || !s.nonces[device].Alive(now) then Some(ChallengeExpired)
      else if s.nonces[device].value != nonce then Some(NonceMismatch)
      else if !Matches(mac, s.devices[device].secret, nonce, response) then Some(BadResponse)
      else None
    case Provision(user, device, _, _) => if Allowed(s, device, user) then None else Some(NotFound)
    case Share(user, device, target, _) =>
      if !Allowed(s, device, user) then Some(NotFound)
      else if target.None? then Some(NoSuchUser) else None
    case Remove(user, device, _, _) =>
      if !Allowed(s, device, user) then Some(NotFound)
      else if |LinksOf(s.links, device)| <= 1 then Some(OnlyMember) else None
  }

  /** The request ends in a commit. */
  ghost predicate Commits(mac: Mac, s: State, r: Request) {
    Refusal(mac, s, r).None? && !r.commitRaises && !((r.Challenge? || r.Confirm?) && r.redisRaises)
  }

  /** The device a challenge is for. */
  ghost function Challengee(s: State, r: Request): nat
    requires r.Challenge?
  {
    if HasUid(s.devices, r.uid) then FindUid(s.devices, r.uid) else r.newId
  }

  /** Redis writes outlive a failed commit; table writes do not. */
  ghost function NoncesAfter(mac: Mac, s: State, r: Request): map<nat, Entry<string>> {
    if Refusal(mac, s, r).Some? then s.nonces
    else if r.Challenge? && !r.redisRaises then s.nonces[Challengee(s, r) := Expiring(r.nonce, r.now + CHALLENGE_TTL)]
    else if r.Confirm? && !r.redisRaises then s.nonces - {r.device}
    else s.nonces
  }

  ghost function DevicesAfter(mac: Mac, s: State, r: Request): map<nat, Device> {
    if !Commits(mac, s, r) then s.devices
    else match r
      case Demo(_, uid, newId, _) => s.devices[newId := Device(uid, MOCK, true, true)]
      case Challenge(_, uid, newId, _, _, _, _) =>
        if HasUid(s.devices, uid) then s.devices else s.devices[newId := Device(uid, UNPROVISIONED, false, false)]
      case Confirm(_, device, _, _, _, _, _) => s.devices[device := s.devices[device].(paired := true)]
      case Provision(_, device, secret, _) => s.devices[device := s.devices[device].(secret := secret, paired := false)]
      case _ => s.devices
  }

  ghost function LinksAfter(mac: Mac, s: State, r: Request): set<(nat, nat)> {
    if !Commits(mac, s, r) then s.links
    else match r
      case Demo(user, _, newId, _) => s.links + {(newId, user)}
      case Challenge(user, uid, newId, _, _, _, _) =>
        if HasUid(s.devices, uid) then s.links else s.links + {(newId, user)}
      case Share(_, device, target, _) => s.links + {(device, target.value)}
      case Remove(_, device, target, _) => s.links - {(device, target)}
      case _ => s.links
  }

  /** What the request adds to the record of the run. */
  ghost function NewFacts(mac: Mac, s: State, r: Request): (facts: seq<Fact>)
    ensures |facts| <= 1
  {
    if Refusal(mac, s, r).Some? then []
    else if r.Challenge? && !r.redisRaises then [Challenged(Challengee(s, r), r.nonce, r.now)]
    else if r.Confirm? && !r.redisRaises && r.commitRaises then [Wasted(r.device)]
    else if !Commits(mac, s, r) then []
    else if r.Confirm? then [Confirmed(r.device, r.nonce, r.response, r.now)]
    else if r.Provision? then [Provisioned(r.device)]
    else []
  }

  ghost function Step(mac: Mac, s: State, r: Request): State {
    State(DevicesAfter(mac, s, r), LinksAfter(mac, s, r), NoncesAfter(mac, s, r), s.facts + NewFacts(mac, s, r))
  }

  ghost function Run(mac: Mac, requests: seq<Request>): State {
    if requests == [] then State(map[], {}, map[], []) else
      Step(mac, Run(mac, requests[..|requests| - 1]), requests[|requests| - 1])
  }

  // ---------------------------------------------------------------- the tables as updated

  /** Device d has the hardware id, and the user is a member of it. */
  predicate IsKnown(devices: map<nat, Device>, links: set<(nat, nat)>, d: nat, uid: string, user: nat) {
    d in devices && devices[d].uid == uid && (d, user) in links
  }

  class DeviceRegistry {
    const mac: Mac
    var devices: map<nat, Device>
    var links: set<(nat, nat)>
    var nonces: map<nat, Entry<string>>
    ghost var facts: seq<Fact>

    ghost function Contents(): State
      reads this
    {
      State(devices, links, nonces, facts)
    }

    ghost predicate Valid()
      reads this
    {
      UniqueUids(devices)
    }

    constructor (mac: Mac)
      ensures Valid() && this.mac == mac && Contents() == State(map[], {}, map[], [])
    {
      this.mac := mac;
      devices, links, nonces, facts := map[], {}, map[], [];
    }

    predicate IsMember(device: nat, user: nat)
      reads this
    {
      (device, user) in links
    }

    /** Idempotent; tells whether a link was created. */
    method AddMember(device: nat, user: nat) returns (created: bool)
      modifies this`links
      ensures links == old(links) + {(device, user)}
      ensures created <==> (device, user) !in old(links)
    {
      if IsMember(device, user) {
        return false;
      }
      links := links + {(device, user)};
      created := true;
    }

    method CreateDemoDevice(user: nat, uid: string, newId: nat, commitRaises: bool) returns (e: Option<DeviceError>)
      requires Valid()
      modifies this
      ensures Valid() && Contents() == Step(mac, old(Contents()), Demo(user, uid, newId, commitRaises))
      ensures e.None? <==> newId !in old(devices) && !HasUid(old(devices), uid) && !commitRaises
      ensures e.None? ==> devices == old(devices)[newId := Device(uid, "mock", true, true)]
      ensures e.None? ==> links == old(links) + {(newId, user)} && nonces == old(nonces)
      ensures e.Some? ==> Contents() == old(Contents())
    {
      if newId in devices || HasUid(devices, uid) {
        return Some(Failed);
      }
      var savedDevices, savedLinks := devices, links;
      devices := devices[newId := Device(uid, MOCK, true, true)];
      var _ := AddMember(newId, user);
      if commitRaises {
        devices, links := savedDevices, savedLinks;
        return Some(Failed);
      }
      e := None;
    }

    method PairingChallenge(user: nat, uid: string, newId: nat, nonce: string, now: int,
                            redisRaises: bool, commitRaises: bool)
      returns (r: Result<nat, DeviceError>)
      requires Valid()
      modifies this
      ensures Valid()
      ensures var request := Challenge(user, uid, newId, nonce, now, redisRaises, commitRaises);
              Contents() == Step(mac, old(Contents()), request)
      ensures r.Ok? <==>
                && !redisRaises && !commitRaises
                && if HasUid(old(devices), uid) then exists d :: IsKnown(old(devices), old(links), d, uid, user)
                   else newId !in old(devices)
      ensures r.Ok? ==> r.value in devices && devices[r.value].uid == uid && (r.value, user) in links
      ensures r.Ok? ==> nonces == old(nonces)[r.value := Expiring(nonce, now + 120)]
      ensures r.Ok? && HasUid(old(devices), uid) ==> devices == old(devices) && links == old(links)
      ensures r.Ok? && !HasUid(old(devices), uid) ==>
                && r.value == newId && devices == old(devices)[newId := Device(uid, "UNPROVISIONED", false, false)]
                && links == old(links) + {(newId, user)}
      ensures r.Err? ==> devices == old(devices) && links == old(links)
    {
      ghost var before := Contents();
      var savedDevices, savedLinks := devices, links;
      var device := newId;
      if HasUid(devices, uid) {
        device :| device in devices && devices[device].uid == uid;
        assert device == FindUid(before.devices, uid);
        assert IsMember(device, user) ==> IsKnown(devices, links, device, uid, user);
        assert forall d :: IsKnown(devices, links, d, uid, user) ==> d == device;
        if !IsMember(device, user) {
          return Err(RegisteredElsewhere);
        }
      } else {
        if newId in devices {
          return Err(Failed);
        }
        devices := devices[newId := Device(uid, UNPROVISIONED, false, false)];
        var _ := AddMember(newId, user);
      }
      if redisRaises {
        devices, links := savedDevices, savedLinks;
        return Err(Failed);
      }
      nonces := nonces[device := Expiring(nonce, now + CHALLENGE_TTL)];
      facts := facts + [Challenged(device, nonce, now)];
      if commitRaises {
        devices, links := savedDevices, savedLinks;
        return Err(Failed);
      }
      r := Ok(device);
    }

    method PairingConfirm(user: nat, device: nat, nonce: string, response: string, now: int,
                          redisRaises: bool, commitRaises: bool)
      returns (r: Result<nat, DeviceError>)
      requires Valid()
      modifies this
      ensures Valid()
      ensures var request := Confirm(user, device, nonce, response, now, redisRaises, commitRaises);
              Contents() == Step(mac, old(Contents()), request)
      ensures r.Ok? <==>
                && device in old(devices) && (device, user) in old(links) && !old(devices)[device].paired
                && device in old(nonces) && old(nonces)[device].Alive(now) && old(nonces)[device].value == nonce
                && Lower(response) == Lower(mac(old(devices)[device].secret, nonce))
                && !redisRaises && !commitRaises
      ensures r.Ok? ==> r.value == device && devices == old(devices)[device := old(devices)[device].(paired := true)]
      ensures r.Ok? ==> links == old(links) && nonces == old(nonces) - {device}
      ensures r.Err? ==> devices == old(devices) && links == old(links)
    {
      if device !in devices || !IsMember(device, user) {
        return Err(NotFound);
      }
      if devices[device].paired {
        return Err(AlreadyPaired);
      }
      if device !in nonces || !nonces[device].Alive(now) {
        return Err(ChallengeExpired);
      }
      if nonces[device].value != nonce {
        return Err(NonceMismatch);
      }
      if !Matches(mac, devices[device].secret, nonce, response) {
        return Err(BadResponse);
      }
      var savedDevices := devices;
      devices := devices[device := devices[device].(paired := true)];
      if redisRaises {
        devices := savedDevices;
        return Err(Failed);
      }
      nonces := nonces - {device};
      if commitRaises {
        devices := savedDevices;
        facts := facts + [Wasted(device)];
        return Err(Failed);
      }
      facts := facts + [Confirmed(device, nonce, response, now)];
      r := Ok(device);
    }

    method ProvisionDeviceSecret(user: nat, device: nat, secret: string, commitRaises: bool)
      returns (e: Option<DeviceError>)
      requires Valid()
      modifies this
      ensures Valid() && Contents() == Step(mac, old(Contents()), Provision(user, device, secret, commitRaises))
      ensures e.None? <==> device in old(devices) && (device, user) in old(links) && !commitRaises
      ensures e.None? ==>
                && devices == old(devices)[device := old(devices)[device].(secret := secret, paired := false)]
                && links == old(links) && nonces == old(nonces)
      ensures e.Some? ==> Contents() == old(Contents())
    {
      if device !in devices || !IsMember(device, user) {
        return Some(NotFound);
      }
      if commitRaises {
        return Some(Failed);
      }
      devices := devices[device := devices[device].(secret := secret)];
      devices := devices[device := devices[device].(paired := false)];
      facts := facts + [Provisioned(device)];
      e := None;
    }

    /** `target` is the user with the e-mail address given, if there is one. */
    method ShareDevice(user: nat, device: nat, target: Option<nat>, commitRaises: bool) returns (e: Option<DeviceError>)
      requires Valid()
      modifies this
      ensures Valid() && Contents() == Step(mac, old(Contents()), Share(user, device, target, commitRaises))
      ensures e.None? <==> device in devices && (device, user) in old(links) && target.Some? && !commitRaises
      ensures e.None? ==> links == old(links) + {(device, target.value)}
      ensures devices == old(devices) && nonces == old(nonces)
      ensures e.Some? ==> Contents() == old(Contents())
    {
      if device !in devices || !IsMember(device, user) {
        return Some(NotFound);
      }
      if target.None? {
        return Some(NoSuchUser);
      }
      var saved := links;
      var _ := AddMember(device, target.value);
      if commitRaises {
        links := saved;
        return Some(Failed);
      }
      e := None;
    }

    method RemoveMember(user: nat, device: nat, target: nat, commitRaises: bool) returns (e: Option<DeviceError>)
      requires Valid()
      modifies this
      ensures Valid() && Contents() == Step(mac, old(Contents()), Remove(user, device, target, commitRaises))
      ensures e.None? <==> && device in devices && (device, user) in old(links) && !commitRaises
                           && |LinksOf(old(links), device)| >= 2
      ensures e.None? ==> links == old(links) - {(device, target)}
      ensures devices == old(devices) && nonces == old(nonces)
      ensures e.Some? ==> Contents() == old(Contents())
    {
      if device !in devices || !IsMember(device, user) {
        return Some(NotFound);
      }
      if |LinksOf(links, device)| <= 1 {
        return Some(OnlyMember);
      }
      var saved := links;
      links := links - {(device, target)};
      if commitRaises {
        links := saved;
        return Some(Failed);
      }
      e := None;
    }
  }

  // ---------------------------------------------------------------- membership

  /** Every device has a member, links name devices, and hardware ids are unique. */
  ghost predicate Owned(s: State) {
    && (forall d :: d in s.devices ==> LinksOf(s.links, d) != {})
    && (forall link :: link in s.links ==> link.0 in s.devices)
    && UniqueUids(s.devices)
  }

  /** Rows are never removed and keep their hardware id. */
  predicate Keeps(s: State, t: State) {
    forall d :: d in s.devices ==> d in t.devices && t.devices[d].uid == s.devices[d].uid
  }

  lemma OneLinkLess(links: set<(nat, nat)>, device: nat, target: nat)
    requires |LinksOf(links, device)| > 1
    ensures LinksOf(links - {(device, target)}, device) != {}
  {
    var of := LinksOf(links, device);
    assert LinksOf(links - {(device, target)}, device) == of - {(device, target)};
    assert |of - {(device, target)}| >= |of| - 1;
  }

  lemma MemberLeft(mac: Mac, s: State, r: Request, d: nat)
    requires Owned(s) && d in s.devices
    ensures LinksOf(LinksAfter(mac, s, r), d) != {}
  {
    var link :| link in LinksOf(s.links, d);
    if r.Remove? && Commits(mac, s, r) && d == r.device {
      OneLinkLess(s.links, d, r.member);
    } else {
      assert link in LinksOf(LinksAfter(mac, s, r), d);
    }
  }

  lemma RowsStay(mac: Mac, s: State, r: Request)
    requires UniqueUids(s.devices)
    ensures UniqueUids(Step(mac, s, r).devices) && Keeps(s, Step(mac, s, r))
  {
  }

  lemma LinksNameDevices(mac: Mac, s: State, r: Request)
    requires Owned(s)
    ensures forall link :: link in LinksAfter(mac, s, r) ==> link.0 in DevicesAfter(mac, s, r)
  {
  }

  lemma OwnedStep(mac: Mac, s: State, r: Request)
    requires Owned(s)
    ensures Owned(Step(mac, s, r)) && Keeps(s, Step(mac, s, r))
  {
    var t := Step(mac, s, r);
    RowsStay(mac, s, r);
    LinksNameDevices(mac, s, r);
    forall d | d in t.devices
      ensures LinksOf(t.links, d) != {}
    {
      if d in s.devices {
        MemberLeft(mac, s, r, d);
      } else {
        assert (d, r.user) in LinksOf(t.links, d);
      }
    }
  }

  /** In every run each device keeps a member, and hardware ids stay unique and fixed. */
  lemma {:induction false} MembershipIsSafe(mac: Mac, requests: seq<Request>, k: nat)
    requires k <= |requests|
    ensures Owned(Run(mac, requests))
    ensures Keeps(Run(mac, requests[..k]), Run(mac, requests))
  {
    if requests != [] {
      var before := requests[..|requests| - 1];
      if k < |requests| {
        assert before[..k] == requests[..k];
        MembershipIsSafe(mac, before, k);
      } else {
        assert requests[..k] == requests;
        MembershipIsSafe(mac, before, 0);
      }
      OwnedStep(mac, Run(mac, before), requests[|requests| - 1]);
    }
  }

  /** The request puts the user on the device: the first to register it, or one a member shares it with. */
  ghost predicate Admits(mac: Mac, s: State, r: Request, device: nat, user: nat) {
    && Commits(mac, s, r)
    && (if r.Demo? || r.Challenge? then !HasUid(s.devices, r.uid) && r.newId == device && r.user == user
        else r.Share? && r.device == device && r.target == Some(user) && Allowed(s, device, r.user))
  }

  /** A member of the device, perhaps the user, takes the user off it. */
  ghost predicate Expels(mac: Mac, s: State, r: Request, device: nat, user: nat) {
    Commits(mac, s, r) && r.Remove? && r.device == device && r.member == user && Allowed(s, device, r.user)
  }

  lemma AccessStep(mac: Mac, s: State, r: Request, device: nat, user: nat)
    requires Owned(s)
    ensures Allowed(Step(mac, s, r), device, user)
       <==> Admits(mac, s, r, device, user) || (Allowed(s, device, user) && !Expels(mac, s, r, device, user))
  {
  }

  ghost predicate AdmittedAt(mac: Mac, requests: seq<Request>, k: int, device: nat, user: nat) {
    0 <= k < |requests| && Admits(mac, Run(mac, requests[..k]), requests[k], device, user)
  }

  ghost predicate ExpelledAt(mac: Mac, requests: seq<Request>, k: int, device: nat, user: nat) {
    0 <= k < |requests| && Expels(mac, Run(mac, requests[..k]), requests[k], device, user)
  }

  ghost predicate MemberSince(mac: Mac, requests: seq<Request>, k: int, device: nat, user: nat) {
    AdmittedAt(mac, requests, k, device, user) && forall m :: k < m ==> !ExpelledAt(mac, requests, m, device, user)
  }

  lemma SameBefore(mac: Mac, requests: seq<Request>, m: int, device: nat, user: nat)
    requires 0 <= m < |requests| - 1
    ensures AdmittedAt(mac, requests, m, device, user) <==> AdmittedAt(mac, requests[..|requests| - 1], m, device, user)
    ensures ExpelledAt(mac, requests, m, device, user) <==> ExpelledAt(mac, requests[..|requests| - 1], m, device, user)
  {
    var before := requests[..|requests| - 1];
    assert before[..m] == requests[..m] && before[m] == requests[m];
  }

  lemma MemberSinceLonger(mac: Mac, requests: seq<Request>, k: int, device: nat, user: nat)
    requires requests != [] && k < |requests| - 1
    ensures MemberSince(mac, requests, k, device, user)
       <==> MemberSince(mac, requests[..|requests| - 1], k, device, user)
            && !ExpelledAt(mac, requests, |requests| - 1, device, user)
  {
    var n := |requests| - 1;
    var before := requests[..n];
    if 0 <= k {
      SameBefore(mac, requests, k, device, user);
      forall m | k < m
        ensures ExpelledAt(mac, requests, m, device, user)
           <==> ExpelledAt(mac, before, m, device, user) || (m == n && ExpelledAt(mac, requests, n, device, user))
      {
        if m < n {
          SameBefore(mac, requests, m, device, user);
        }
      }
    }
  }

  /** Whoever may act on a device was admitted to it, and has not been expelled since. */
  lemma {:induction false} AccessIsEarned(mac: Mac, requests: seq<Request>, device: nat, user: nat)
    ensures Allowed(Run(mac, requests), device, user) <==> exists k :: MemberSince(mac, requests, k, device, user)
  {
    if requests != [] {
      var n := |requests| - 1;
      var before := requests[..n];
      var s, r := Run(mac, before), requests[n];
      MembershipIsSafe(mac, before, 0);
      AccessIsEarned(mac, before, device, user);
      AccessStep(mac, s, r, device, user);
      if Admits(mac, s, r, device, user) {
        assert MemberSince(mac, requests, n, device, user);
      } else if Allowed(s, device, user) && !Expels(mac, s, r, device, user) {
        var k :| MemberSince(mac, before, k, device, user);
        MemberSinceLonger(mac, requests, k, device, user);
      } else if k :| MemberSince(mac, requests, k, device, user) {
        MemberSinceLonger(mac, requests, k, device, user);
      }
    } else {
      assert forall k :: !AdmittedAt(mac, requests, k, device, user);
    }
  }

  // ---------------------------------------------------------------- pairing

  predicate IsChallenge(f: Fact, device: nat) {
    f.Challenged? && f.device == device
  }

  /** Fact `j` is the last challenge of the device before position `k`. */
  predicate LatestChallenge(facts: seq<Fact>, device: nat, j: int, k: int) {
    && 0 <= j < k <= |facts|
    && IsChallenge(facts[j], device)
    && forall i :: j < i < k ==> !IsChallenge(facts[i], device)
  }

  predicate NotReprovisioned(facts: seq<Fact>, device: nat, k: int) {
    forall i :: 0 <= i < |facts| && k < i ==> facts[i] != Provisioned(device)
  }

  /**
    Fact `k` is a confirm of the device, of the nonce of its latest challenge `j`, given in
    time, whose response matches under `secret`; nobody provisioned the device since.
   */
  ghost predicate Witness(mac: Mac, facts: seq<Fact>, device: nat, secret: string, j: int, k: int) {
    && 0 <= k < |facts|
    && facts[k].Confirmed? && facts[k].device == device
    && LatestChallenge(facts, device, j, k)
    && facts[j].nonce == facts[k].nonce
    && facts[k].at - facts[j].at < 120
    && Lower(facts[k].response) == Lower(mac(secret, facts[k].nonce))
    && NotReprovisioned(facts, device, k)
  }

  ghost predicate Witnessed(mac: Mac, facts: seq<Fact>, device: nat, secret: string) {
    exists j, k :: Witness(mac, facts, device, secret, j, k)
  }

  /** The key was set by that challenge. */
  predicate Stores(entry: Entry<string>, f: Fact) {
    f.Challenged? && entry == Expiring(f.nonce, f.at + CHALLENGE_TTL)
  }

  /** Fact `j` is the latest challenge of the device, and nobody has used its nonce. */
  predicate OpenChallenge(facts: seq<Fact>, device: nat, j: int) {
    && LatestChallenge(facts, device, j, |facts|)
    && forall i :: j < i < |facts| ==> !IsUse(facts[i], device)
  }

  predicate IsUse(f: Fact, device: nat) {
    (f.Confirmed? || f.Wasted?) && f.device == device
  }

  ghost predicate HasOpenChallenge(facts: seq<Fact>, device: nat) {
    exists j :: OpenChallenge(facts, device, j)
  }

  /** A nonce key is there exactly while there is an open challenge, and holds its nonce. */
  ghost predicate Tracked(s: State, device: nat) {
    && (device in s.nonces <==> HasOpenChallenge(s.facts, device))
    && forall j :: OpenChallenge(s.facts, device, j) && device in s.nonces ==> Stores(s.nonces[device], s.facts[j])
  }

  ghost predicate PairingSound(mac: Mac, s: State) {
    && (forall d :: Tracked(s, d))
    && (forall d :: WasProvisioned(s.facts, d) ==> d in s.devices)
    && (forall d :: ClaimsPairing(s, d) ==> Witnessed(mac, s.facts, d, s.devices[d].secret))
  }

  ghost predicate WasProvisioned(facts: seq<Fact>, device: nat) {
    Provisioned(device) in facts
  }

  /** Paired, and not merely because it was born as a demo that nobody provisioned. */
  ghost predicate ClaimsPairing(s: State, device: nat) {
    && device in s.devices
    && s.devices[device].paired
    && (!s.devices[device].demo || WasProvisioned(s.facts, device))
  }

  lemma WitnessLasts(mac: Mac, facts: seq<Fact>, f: Fact, device: nat, secret: string)
    requires Witnessed(mac, facts, device, secret) && f != Provisioned(device)
    ensures Witnessed(mac, facts + [f], device, secret)
  {
    var j, k :| Witness(mac, facts, device, secret, j, k);
    assert Witness(mac, facts + [f], device, secret, j, k);
  }

  lemma OneOpenChallenge(facts: seq<Fact>, device: nat, j: int, k: int)
    requires OpenChallenge(facts, device, j) && OpenChallenge(facts, device, k)
    ensures j == k
  {
    assert IsChallenge(facts[j], device) && IsChallenge(facts[k], device);
  }

  lemma OpenAfter(facts: seq<Fact>, f: Fact, device: nat)
    ensures forall j :: OpenChallenge(facts + [f], device, j) <==>
              if j == |facts| then IsChallenge(f, device)
              else OpenChallenge(facts, device, j) && !IsChallenge(f, device) && !IsUse(f, device)
  {
    var longer := facts + [f];
    assert longer[|facts|] == f;
    forall j
      ensures OpenChallenge(longer, device, j) <==>
                if j == |facts| then IsChallenge(f, device)
                else OpenChallenge(facts, device, j) && !IsChallenge(f, device) && !IsUse(f, device)
    {
      assert forall i :: 0 <= i < |facts| ==> longer[i] == facts[i];
    }
  }

  lemma NonceStep(mac: Mac, s: State, r: Request, d: nat)
    requires Tracked(s, d)
    ensures Tracked(Step(mac, s, r), d)
  {
    var t, more := Step(mac, s, r), NewFacts(mac, s, r);
    if more == [] {
      assert t.facts == s.facts;
    } else {
      assert t.facts == s.facts + [more[0]];
      OpenAfter(s.facts, more[0], d);
      if IsChallenge(more[0], d) {
        assert OpenChallenge(t.facts, d, |s.facts|);
      } else if j :| OpenChallenge(s.facts, d, j) && !IsUse(more[0], d) {
        assert OpenChallenge(t.facts, d, j);
      }
    }
  }

  lemma ProvisionedStep(mac: Mac, s: State, r: Request)
    requires forall d :: WasProvisioned(s.facts, d) ==> d in s.devices
    ensures forall d :: WasProvisioned(Step(mac, s, r).facts, d) ==> d in Step(mac, s, r).devices
  {
  }

  lemma PairedStep(mac: Mac, s: State, r: Request, d: nat)
    requires PairingSound(mac, s)
    requires ClaimsPairing(Step(mac, s, r), d)
    ensures Witnessed(mac, Step(mac, s, r).facts, d, Step(mac, s, r).devices[d].secret)
  {
    var t := Step(mac, s, r);
    if r.Confirm? && r.device == d && Commits(mac, s, r) {
      assert Tracked(s, d);
      var j :| OpenChallenge(s.facts, d, j);
      assert Stores(s.nonces[d], s.facts[j]);
      assert Witness(mac, t.facts, d, t.devices[d].secret, j, |s.facts|);
    } else {
      assert d in s.devices && s.devices[d] == t.devices[d];
      if t.facts != s.facts {
        WitnessLasts(mac, s.facts, t.facts[|s.facts|], d, s.devices[d].secret);
        assert t.facts == s.facts + [t.facts[|s.facts|]];
      }
    }
  }

  /**
    In every reachable state a paired device, unless it is a demo never provisioned, has a
    past confirm of its then latest challenge, under 120 s old, whose response matches the
    digest under the secret stored now.
   */
  lemma {:induction false} PairedDevicesAreWitnessed(mac: Mac, requests: seq<Request>)
    ensures PairingSound(mac, Run(mac, requests))
  {
    if requests != [] {
      var s, r := Run(mac, requests[..|requests| - 1]), requests[|requests| - 1];
      PairedDevicesAreWitnessed(mac, requests[..|requests| - 1]);
      forall d
        ensures Tracked(Step(mac, s, r), d)
      {
        NonceStep(mac, s, r, d);
      }
      ProvisionedStep(mac, s, r);
      forall d | ClaimsPairing(Step(mac, s, r), d)
        ensures Witnessed(mac, Step(mac, s, r).facts, d, Step(mac, s, r).devices[d].secret)
      {
        PairedStep(mac, s, r, d);
      }
    }
  }

  /** A confirm of the device, by a member, of its open challenge, in time and with the right digest. */
  ghost predicate Proves(mac: Mac, s: State, r: Request, device: nat)
    requires device in s.devices
  {
    && r.Confirm? && r.device == device && (device, r.user) in s.links
    && Lower(r.response) == Lower(mac(s.devices[device].secret, r.nonce))
    && exists j :: OpenChallenge(s.facts, device, j) && s.facts[j].nonce == r.nonce && r.now < s.facts[j].at + 120
  }

  /**
    In every reachable state a request makes an unpaired device paired if and only if it is
    such a confirm and reaches its commit; any other response leaves it unpaired.
   */
  lemma PairsIff(mac: Mac, requests: seq<Request>, r: Request, device: nat)
    requires var s := Run(mac, requests); device in s.devices && !s.devices[device].paired
    ensures device in Step(mac, Run(mac, requests), r).devices
    ensures Step(mac, Run(mac, requests), r).devices[device].paired
       <==> Proves(mac, Run(mac, requests), r, device) && !r.redisRaises && !r.commitRaises
  {
    var s := Run(mac, requests);
    PairedDevicesAreWitnessed(mac, requests);
    assert Tracked(s, device);
    if j :| OpenChallenge(s.facts, device, j) {
      forall k | OpenChallenge(s.facts, device, k)
        ensures k == j
      {
        OneOpenChallenge(s.facts, device, j, k);
      }
    }
  }

  // ---------------------------------------------------------------- counting successes

  function Challenges(facts: seq<Fact>, device: nat, nonce: string): nat {
    if facts == [] then 0 else
      var f := facts[|facts| - 1];
      Challenges(facts[..|facts| - 1], device, nonce) + if IsChallenge(f, device) && f.nonce == nonce then 1 else 0
  }

  function Successes(facts: seq<Fact>, device: nat): nat {
    if facts == [] then 0 else
      var f := facts[|facts| - 1];
      Successes(facts[..|facts| - 1], device) + if f.Confirmed? && f.device == device then 1 else 0
  }

  function SuccessesWith(facts: seq<Fact>, device: nat, nonce: string): nat {
    if facts == [] then 0 else
      var f := facts[|facts| - 1];
      SuccessesWith(facts[..|facts| - 1], device, nonce)
      + if f.Confirmed? && f.device == device && f.nonce == nonce then 1 else 0
  }

  function Provisions(facts: seq<Fact>, device: nat): nat {
    if facts == [] then 0 else
      Provisions(facts[..|facts| - 1], device) + if facts[|facts| - 1] == Provisioned(device) then 1 else 0
  }

  lemma CountsGrow(facts: seq<Fact>, f: Fact, device: nat, nonce: string)
    ensures Challenges(facts + [f], device, nonce)
         == Challenges(facts, device, nonce) + if IsChallenge(f, device) && f.nonce == nonce then 1 else 0
    ensures Successes(facts + [f], device)
         == Successes(facts, device) + if f.Confirmed? && f.device == device then 1 else 0
    ensures SuccessesWith(facts + [f], device, nonce)
         == SuccessesWith(facts, device, nonce)
            + if f.Confirmed? && f.device == device && f.nonce == nonce then 1 else 0
    ensures Provisions(facts + [f], device) == Provisions(facts, device) + if f == Provisioned(device) then 1 else 0
  {
    assert (facts + [f])[..|facts|] == facts;
  }

  function Pending(nonces: map<nat, Entry<string>>, device: nat, nonce: string): nat {
    if device in nonces && nonces[device].value == nonce then 1 else 0
  }

  /** A nonce still stored has not been used for the challenge that stored it. */
  predicate Unspent(s: State, device: nat, nonce: string) {
    SuccessesWith(s.facts, device, nonce) + Pending(s.nonces, device, nonce) <= Challenges(s.facts, device, nonce)
  }

  predicate SuccessesPaid(s: State, device: nat) {
    if device in s.devices then
      Successes(s.facts, device) + Bit(s.devices[device].demo)
      <= Provisions(s.facts, device) + Bit(s.devices[device].paired)
    else
      Successes(s.facts, device) == 0 && Provisions(s.facts, device) == 0
  }

  lemma OneFact(f: Fact, device: nat, nonce: string)
    ensures Challenges([f], device, nonce) == if IsChallenge(f, device) && f.nonce == nonce then 1 else 0
    ensures Successes([f], device) == if f.Confirmed? && f.device == device then 1 else 0
    ensures SuccessesWith([f], device, nonce)
         == if f.Confirmed? && f.device == device && f.nonce == nonce then 1 else 0
    ensures Provisions([f], device) == if f == Provisioned(device) then 1 else 0
  {
    assert [f][..0] == [];
  }

  /** A request adds one fact at most, and the counts with it. */
  lemma CountsAppend(facts: seq<Fact>, more: seq<Fact>, device: nat, nonce: string)
    requires |more| <= 1
    ensures Challenges(facts + more, device, nonce)
         == Challenges(facts, device, nonce) + Challenges(more, device, nonce)
    ensures Successes(facts + more, device) == Successes(facts, device) + Successes(more, device)
    ensures SuccessesWith(facts + more, device, nonce)
         == SuccessesWith(facts, device, nonce) + SuccessesWith(more, device, nonce)
    ensures Provisions(facts + more, device) == Provisions(facts, device) + Provisions(more, device)
  {
    if more == [] {
      assert facts + more == facts;
    } else {
      CountsGrow(facts, more[0], device, nonce);
      OneFact(more[0], device, nonce);
      assert more == [more[0]];
    }
  }

  lemma UnspentStep(mac: Mac, s: State, r: Request, device: nat, nonce: string)
    requires Unspent(s, device, nonce)
    ensures Unspent(Step(mac, s, r), device, nonce)
  {
    CountsAppend(s.facts, NewFacts(mac, s, r), device, nonce);
    NonceCounts(mac, s, r, device, nonce);
  }

  /** Setting the key takes a challenge with that nonce; a success takes the key away. */
  lemma NonceCounts(mac: Mac, s: State, r: Request, device: nat, nonce: string)
    ensures SuccessesWith(NewFacts(mac, s, r), device, nonce) + Pending(NoncesAfter(mac, s, r), device, nonce)
         <= Challenges(NewFacts(mac, s, r), device, nonce) + Pending(s.nonces, device, nonce)
  {
    var more := NewFacts(mac, s, r);
    if more != [] {
      OneFact(more[0], device, nonce);
      assert more == [more[0]];
    }
  }

  lemma PaidStep(mac: Mac, s: State, r: Request, device: nat)
    requires SuccessesPaid(s, device)
    ensures SuccessesPaid(Step(mac, s, r), device)
  {
    CountsAppend(s.facts, NewFacts(mac, s, r), device, "");
    PaidCounts(mac, s, r, device);
  }

  function Bit(b: bool): nat {
    if b then 1 else 0
  }

  /** A success pairs an unpaired device; only a provision unpairs one. */
  lemma PaidCounts(mac: Mac, s: State, r: Request, device: nat)
    ensures var more, devices := NewFacts(mac, s, r), DevicesAfter(mac, s, r);
            if device in s.devices then
              && device in devices && devices[device].demo == s.devices[device].demo
              && Successes(more, device) + Bit(s.devices[device].paired)
                 <= Provisions(more, device) + Bit(devices[device].paired)
            else
              && Successes(more, device) == 0 && Provisions(more, device) == 0
              && (device in devices ==> devices[device].demo == devices[device].paired)
  {
    var more := NewFacts(mac, s, r);
    if more != [] {
      OneFact(more[0], device, "");
      assert more == [more[0]];
    }
  }

  /**
    A nonce succeeds at most as often as it was issued to the device, so once when nonces
    are fresh; and a device is confirmed at most once more than it was provisioned.
   */
  lemma {:induction false} SuccessesAreBounded(mac: Mac, requests: seq<Request>, device: nat, nonce: string)
    ensures Unspent(Run(mac, requests), device, nonce) && SuccessesPaid(Run(mac, requests), device)
    ensures SuccessesWith(Run(mac, requests).facts, device, nonce)
         <= Challenges(Run(mac, requests).facts, device, nonce)
    ensures Successes(Run(mac, requests).facts, device) <= Provisions(Run(mac, requests).facts, device) + 1
  {
    if requests != [] {
      SuccessesAreBounded(mac, requests[..|requests| - 1], device, nonce);
      UnspentStep(mac, Run(mac, requests[..|requests| - 1]), requests[|requests| - 1], device, nonce);
      PaidStep(mac, Run(mac, requests[..|requests| - 1]), requests[|requests| - 1], device);
    }
  }

  /** No two challenge requests draw the same nonce. */
  predicate FreshNonces(requests: seq<Request>) {
    forall i, j :: 0 <= i < j < |requests| && requests[i].Challenge? && requests[j].Challenge? ==>
      requests[i].nonce != requests[j].nonce
  }

  /** Challenge requests that draw the nonce. */
  function Draws(requests: seq<Request>, nonce: string): nat {
    if requests == [] then 0 else
      var r := requests[|requests| - 1];
      Draws(requests[..|requests| - 1], nonce) + if r.Challenge? && r.nonce == nonce then 1 else 0
  }

  lemma OneDraw(mac: Mac, s: State, r: Request, device: nat, nonce: string)
    ensures Challenges(NewFacts(mac, s, r), device, nonce) <= if r.Challenge? && r.nonce == nonce then 1 else 0
  {
    var more := NewFacts(mac, s, r);
    if more != [] {
      OneFact(more[0], device, nonce);
      assert more == [more[0]];
    }
  }

  lemma {:induction false} ChallengesAreDrawn(mac: Mac, requests: seq<Request>, device: nat, nonce: string)
    ensures Challenges(Run(mac, requests).facts, device, nonce) <= Draws(requests, nonce)
  {
    if requests != [] {
      var before, r := requests[..|requests| - 1], requests[|requests| - 1];
      ChallengesAreDrawn(mac, before, device, nonce);
      CountsAppend(Run(mac, before).facts, NewFacts(mac, Run(mac, before), r), device, nonce);
      OneDraw(mac, Run(mac, before), r, device, nonce);
    }
  }

  lemma {:induction false} DrawnOnce(requests: seq<Request>, nonce: string)
    requires FreshNonces(requests)
    ensures Draws(requests, nonce) <= 1
    ensures Draws(requests, nonce) == 1 ==>
              exists i :: 0 <= i < |requests| && requests[i].Challenge? && requests[i].nonce == nonce
  {
    if requests != [] {
      var before := requests[..|requests| - 1];
      DrawnOnce(before, nonce);
      if Draws(before, nonce) == 1 {
        var i :| 0 <= i < |before| && before[i].Challenge? && before[i].nonce == nonce;
        assert requests[i] == before[i];
      }
    }
  }

  /** With fresh nonces, each is confirmed at most once. */
  lemma NonceSucceedsOnce(mac: Mac, requests: seq<Request>, device: nat, nonce: string)
    requires FreshNonces(requests)
    ensures SuccessesWith(Run(mac, requests).facts, device, nonce) <= 1
  {
    SuccessesAreBounded(mac, requests, device, nonce);
    ChallengesAreDrawn(mac, requests, device, nonce);
    DrawnOnce(requests, nonce);
  }
}
