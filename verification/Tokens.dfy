/**
  Refresh tokens: the requests that add, rotate and revoke them, as transactions on the
  users and refresh_tokens tables, and what holds over every sequential run.
 */
module Tokens {
  import opened Prelude

  datatype User = User(email: string, phone: Option<string>, active: bool)

  datatype RefreshToken = RefreshToken(user: nat, hash: string, expiresAt: int, revoked: bool) {
    predicate IsExpired(now: int) {
      now >= expiresAt
    }

    predicate IsValid(now: int) {
      !revoked && !IsExpired(now)
    }
  }

  /**
    The two tables, user and token ids being positions, with the lineage of every token:
    the token it replaced, if any, and the login it descends from.
   */
  datatype State = State(users: seq<User>, tokens: seq<RefreshToken>, parents: seq<Option<nat>>, families: seq<nat>)

  /** A request, the hash its new token would get, its instant, and the fate of its commit. */
  datatype Request =
    | Register(email: string, phone: Option<string>, newHash: string, now: int, commitRaises: bool)
    | Login(email: string, passwordOk: bool, newHash: string, now: int, commitRaises: bool)
    | VerifyOtp(number: string, codeOk: bool, newHash: string, now: int, commitRaises: bool)
    | Refresh(hash: string, newHash: string, now: int, commitRaises: bool)
    | Logout(hash: string, now: int, commitRaises: bool)

  datatype AuthError = Taken | Rejected | Disabled | Failed

  // ---------------------------------------------------------------- queries

  function FindToken(tokens: seq<RefreshToken>, hash: string): (found: Option<nat>)
    ensures found.Some? ==> found.value < |tokens| && tokens[found.value].hash == hash
    ensures found.None? ==> forall i :: 0 <= i < |tokens| ==> tokens[i].hash != hash
  {
    if tokens == [] then None
    else if tokens[|tokens| - 1].hash == hash then Some(|tokens| - 1)
    else FindToken(tokens[..|tokens| - 1], hash)
  }

  function FindEmail(users: seq<User>, email: string): (found: Option<nat>)
    ensures found.Some? ==> found.value < |users| && users[found.value].email == email
    ensures found.None? ==> forall i :: 0 <= i < |users| ==> users[i].email != email
  {
    if users == [] then None
    else if users[|users| - 1].email == email then Some(|users| - 1)
    else FindEmail(users[..|users| - 1], email)
  }

  function FindPhone(users: seq<User>, phone: string): (found: Option<nat>)
    ensures found.Some? ==> found.value < |users| && users[found.value].phone == Some(phone)
    ensures found.None? ==> forall i :: 0 <= i < |users| ==> users[i].phone != Some(phone)
  {
    if users == [] then None
    else if users[|users| - 1].phone == Some(phone) then Some(|users| - 1)
    else FindPhone(users[..|users| - 1], phone)
  }

  predicate UniqueUsers(users: seq<User>) {
    && (forall i, j :: 0 <= i < j < |users| ==> users[i].email != users[j].email)
    && (forall i, j :: 0 <= i < j < |users| && users[i].phone.Some? ==> users[i].phone != users[j].phone)
  }

  predicate UniqueHashes(tokens: seq<RefreshToken>) {
    forall i, j :: 0 <= i < j < |tokens| ==> tokens[i].hash != tokens[j].hash
  }

  /** Token i has the hash, and is neither revoked nor expired. */
  predicate Presentable(tokens: seq<RefreshToken>, i: int, hash: string, now: int) {
    0 <= i < |tokens| && tokens[i].hash == hash && !tokens[i].revoked && now < tokens[i].expiresAt
  }

  predicate EmailTaken(users: seq<User>, email: string) {
    exists i :: 0 <= i < |users| && users[i].email == email
  }

  predicate PhoneTaken(users: seq<User>, phone: Option<string>) {
    exists i :: 0 <= i < |users| && users[i].phone == phone
  }

  predicate HashTaken(tokens: seq<RefreshToken>, hash: string) {
    exists i :: 0 <= i < |tokens| && tokens[i].hash == hash
  }

  lemma NewUserIsUnique(users: seq<User>, user: User)
    requires UniqueUsers(users) && !EmailTaken(users, user.email)
    requires user.phone.Some? ==> !PhoneTaken(users, user.phone)
    ensures UniqueUsers(users + [user])
  {
  }

  lemma NewTokenIsUnique(tokens: seq<RefreshToken>, token: RefreshToken)
    requires UniqueHashes(tokens) && !HashTaken(tokens, token.hash)
    ensures UniqueHashes(tokens + [token])
  {
  }

  /** Hashes being unique, the lookup finds the token that can be presented. */
  lemma FoundIsPresentable(tokens: seq<RefreshToken>, hash: string, now: int)
    requires UniqueHashes(tokens)
    ensures var found := FindToken(tokens, hash);
            (exists i :: Presentable(tokens, i, hash, now)) <==> found.Some? && tokens[found.value].IsValid(now)
    ensures forall i :: Presentable(tokens, i, hash, now) ==> FindToken(tokens, hash) == Some(i)
  {
    var found := FindToken(tokens, hash);
    if found.Some? && tokens[found.value].IsValid(now) {
      assert Presentable(tokens, found.value, hash, now);
    }
  }

  // ---------------------------------------------------------------- transitions

  /** The user a login-like request authenticates, if it does. */
  function Authenticated(s: State, r: Request): Option<nat> {
    match r
    case Register(email, phone, _, _, _) =>
      if FindEmail(s.users, email).Some? || (phone.Some? && FindPhone(s.users, phone.value).Some?) then None
      else Some(|s.users|)
    case Login(email, passwordOk, _, _, _) =>
      var found := FindEmail(s.users, email);
      if found.Some? && passwordOk && s.users[found.value].active then found else None
    case VerifyOtp(phone, codeOk, _, _, _) =>
      var found := FindPhone(s.users, phone);
      if codeOk && found.Some? && s.users[found.value].active then found else None
    case _ => None
  }

  predicate IsLogin(r: Request) {
    r.Register? || r.Login? || r.VerifyOtp?
  }

  /** The unique index on token hashes admits the new token, and the transaction commits. */
  predicate Stores(s: State, r: Request) {
    !r.Logout? && FindToken(s.tokens, r.newHash).None? && !r.commitRaises
  }

  /** The user to whom the request issues a first pair. */
  function Granted(s: State, r: Request): Option<nat> {
    if IsLogin(r) && Stores(s, r) then Authenticated(s, r) else None
  }

  /** The token an accepted refresh rotates. */
  function Rotated(s: State, r: Request): (found: Option<nat>)
    ensures found.Some? ==> found.value < |s.tokens|
  {
    if r.Refresh? && Stores(s, r) then
      var found := FindToken(s.tokens, r.hash);
      if found.Some? && s.tokens[found.value].IsValid(r.now) then found else None
    else None
  }

  /** The token an effective logout revokes. */
  function LoggedOut(s: State, r: Request): (found: Option<nat>)
    ensures found.Some? ==> found.value < |s.tokens|
  {
    if r.Logout? && !r.commitRaises then
      var found := FindToken(s.tokens, r.hash);
      if found.Some? && !s.tokens[found.value].revoked then found else None
    else None
  }

  const LIFETIME: int := 30 * 86400

  function Issued(user: nat, hash: string, now: int): RefreshToken {
    RefreshToken(user, hash, now + LIFETIME, false)
  }

  function Revoke(tokens: seq<RefreshToken>, i: nat): seq<RefreshToken>
    requires i < |tokens|
  {
    tokens[i := tokens[i].(revoked := true)]
  }

  /** A request that raises anywhere, its commit included, changes nothing. */
  function Step(s: State, r: Request): State {
    var granted, rotated, out := Granted(s, r), Rotated(s, r), LoggedOut(s, r);
    if granted.Some? then
      State(if r.Register? then s.users + [User(r.email, r.phone, true)] else s.users,
            s.tokens + [Issued(granted.value, r.newHash, r.now)],
            s.parents + [None],
            s.families + [|s.tokens|])
    else if rotated.Some? then
      State(s.users,
            Revoke(s.tokens, rotated.value) + [Issued(s.tokens[rotated.value].user, r.newHash, r.now)],
            s.parents + [rotated],
            s.families + [if rotated.value < |s.families| then s.families[rotated.value] else |s.tokens|])
    else if out.Some? then
      s.(tokens := Revoke(s.tokens, out.value))
    else s
  }

  function Run(s: State, requests: seq<Request>): State {
    if requests == [] then s else Step(Run(s, requests[..|requests| - 1]), requests[|requests| - 1])
  }

  function Start(users: seq<User>): State {
    State(users, [], [], [])
  }

  // ---------------------------------------------------------------- the tables as updated

  class AuthTables {
    var users: seq<User>
    var tokens: seq<RefreshToken>
    ghost var parents: seq<Option<nat>>
    ghost var families: seq<nat>

    ghost function Contents(): State
      reads this
    {
      State(users, tokens, parents, families)
    }

    /** Emails, phones and hashes are unique columns. */
    ghost predicate Valid()
      reads this
    {
      && |parents| == |tokens| && |families| == |tokens|
      && UniqueUsers(users)
      && UniqueHashes(tokens)
    }

    constructor (users: seq<User>)
      requires UniqueUsers(users)
      ensures Valid() && Contents() == Start(users)
    {
      this.users, tokens, parents, families := users, [], [], [];
    }

    /** Insert and flush; the unique index on hashes may reject the row. */
    method StoreRefreshToken(user: nat, hash: string, now: int) returns (ok: bool)
      modifies this`tokens
      ensures ok <==> FindToken(old(tokens), hash).None?
      ensures ok <==> !HashTaken(old(tokens), hash)
      ensures tokens == if ok then old(tokens) + [RefreshToken(user, hash, now + 30 * 86400, false)] else old(tokens)
    {
      ok := FindToken(tokens, hash).None?;
      if ok {
        tokens := tokens + [RefreshToken(user, hash, now + LIFETIME, false)];
      }
    }

    method RegisterUser(email: string, phone: Option<string>, newHash: string, now: int, commitRaises: bool)
      returns (r: Result<nat, AuthError>)
      requires Valid()
      modifies this
      ensures Valid() && Contents() == Step(old(Contents()), Register(email, phone, newHash, now, commitRaises))
      ensures r.Ok? <==> && !EmailTaken(old(users), email) && (phone.Some? ==> !PhoneTaken(old(users), phone))
                         && !HashTaken(old(tokens), newHash) && !commitRaises
      ensures r.Ok? ==> r.value == |old(users)| && users == old(users) + [User(email, phone, true)]
      ensures r.Ok? ==> tokens == old(tokens) + [RefreshToken(r.value, newHash, now + 30 * 86400, false)]
      ensures r.Err? ==> Contents() == old(Contents())
    {
      assert FindEmail(users, email).Some? <==> EmailTaken(users, email);
      assert phone.Some? ==> (FindPhone(users, phone.value).Some? <==> PhoneTaken(users, phone));
      if FindEmail(users, email).Some? || (phone.Some? && FindPhone(users, phone.value).Some?) {
        return Err(Taken);
      }
      var savedUsers, savedTokens := users, tokens;
      var user := |users|;
      NewUserIsUnique(users, User(email, phone, true));
      users := users + [User(email, phone, true)];
      var stored := StoreRefreshToken(user, newHash, now);
      if !stored || commitRaises {
        users, tokens := savedUsers, savedTokens;
        return Err(Failed);
      }
      NewTokenIsUnique(savedTokens, RefreshToken(user, newHash, now + LIFETIME, false));
      parents, families := parents + [None], families + [|savedTokens|];
      r := Ok(user);
    }

    method LoginUser(email: string, passwordOk: bool, newHash: string, now: int, commitRaises: bool)
      returns (r: Result<nat, AuthError>)
      requires Valid()
      modifies this
      ensures Valid() && Contents() == Step(old(Contents()), Login(email, passwordOk, newHash, now, commitRaises))
      ensures r.Ok? <==> && passwordOk && !HashTaken(old(tokens), newHash) && !commitRaises
                         && exists i :: 0 <= i < |users| && users[i].email == email && users[i].active
      ensures r.Ok? ==> r.value < |users| && users[r.value].email == email && users == old(users)
      ensures r.Ok? ==> tokens == old(tokens) + [RefreshToken(r.value, newHash, now + 30 * 86400, false)]
      ensures r.Err? ==> Contents() == old(Contents())
    {
      var found := FindEmail(users, email);
      if found.None? || !passwordOk {
        return Err(Rejected);
      }
      if !users[found.value].active {
        return Err(Disabled);
      }
      var saved := tokens;
      var stored := StoreRefreshToken(found.value, newHash, now);
      if !stored || commitRaises {
        tokens := saved;
        return Err(Failed);
      }
      NewTokenIsUnique(saved, RefreshToken(found.value, newHash, now + LIFETIME, false));
      parents, families := parents + [None], families + [|saved|];
      r := Ok(found.value);
    }

    method LoginByOtp(phone: string, codeOk: bool, newHash: string, now: int, commitRaises: bool)
      returns (r: Result<nat, AuthError>)
      requires Valid()
      modifies this
      ensures Valid() && Contents() == Step(old(Contents()), VerifyOtp(phone, codeOk, newHash, now, commitRaises))
      ensures r.Ok? <==> && codeOk && !HashTaken(old(tokens), newHash) && !commitRaises
                         && exists i :: 0 <= i < |users| && users[i].phone == Some(phone) && users[i].active
      ensures r.Ok? ==> r.value < |users| && users[r.value].phone == Some(phone) && users == old(users)
      ensures r.Ok? ==> tokens == old(tokens) + [RefreshToken(r.value, newHash, now + 30 * 86400, false)]
      ensures r.Err? ==> Contents() == old(Contents())
    {
      if !codeOk {
        return Err(Rejected);
      }
      var found := FindPhone(users, phone);
      if found.None? || !users[found.value].active {
        return Err(Rejected);
      }
      var saved := tokens;
      var stored := StoreRefreshToken(found.value, newHash, now);
      if !stored || commitRaises {
        tokens := saved;
        return Err(Failed);
      }
      NewTokenIsUnique(saved, RefreshToken(found.value, newHash, now + LIFETIME, false));
      parents, families := parents + [None], families + [|saved|];
      r := Ok(found.value);
    }

    /** Revokes the presented token, then issues; an error after the revocation undoes it. */
    method RotateToken(hash: string, newHash: string, now: int, commitRaises: bool) returns (r: Result<nat, AuthError>)
      requires Valid()
      modifies this
      ensures Valid() && Contents() == Step(old(Contents()), Refresh(hash, newHash, now, commitRaises))
      ensures r.Ok? <==> && !HashTaken(old(tokens), newHash) && !commitRaises
                         && exists i :: Presentable(old(tokens), i, hash, now)
      ensures r.Ok? ==> exists i :: && Presentable(old(tokens), i, hash, now) && r.value == old(tokens)[i].user
                                    && tokens == old(tokens)[i := old(tokens)[i].(revoked := true)]
                                                 + [RefreshToken(r.value, newHash, now + 30 * 86400, false)]
      ensures r.Err? ==> Contents() == old(Contents())
    {
      FoundIsPresentable(tokens, hash, now);
      var found := FindToken(tokens, hash);
      if found.None? || !tokens[found.value].IsValid(now) {
        return Err(Rejected);
      }
      var saved := tokens;
      assert Presentable(saved, found.value, hash, now);
      tokens := Revoke(tokens, found.value);
      RevokeKeepsHashes(saved, found.value, newHash);
      ghost var revoked := tokens;
      var stored := StoreRefreshToken(saved[found.value].user, newHash, now);
      if !stored || commitRaises {
        tokens := saved;
        return Err(Failed);
      }
      NewTokenIsUnique(revoked, RefreshToken(saved[found.value].user, newHash, now + LIFETIME, false));
      parents, families := parents + [found], families + [families[found.value]];
      r := Ok(saved[found.value].user);
    }

    method LogoutToken(hash: string, now: int, commitRaises: bool)
      requires Valid()
      modifies this
      ensures Valid() && Contents() == Step(old(Contents()), Logout(hash, now, commitRaises))
      ensures |tokens| == |old(tokens)|
      ensures forall i :: 0 <= i < |tokens| ==>
                var was := old(tokens)[i];
                tokens[i] == was.(revoked := was.revoked || (was.hash == hash && !commitRaises))
    {
      var found := FindToken(tokens, hash);
      if found.Some? && !tokens[found.value].revoked && !commitRaises {
        tokens := Revoke(tokens, found.value);
      }
    }
  }

  lemma RevokeKeepsHashes(tokens: seq<RefreshToken>, i: nat, hash: string)
    requires i < |tokens|
    ensures FindToken(Revoke(tokens, i), hash).None? <==> FindToken(tokens, hash).None?
    ensures HashTaken(Revoke(tokens, i), hash) <==> HashTaken(tokens, hash)
    ensures UniqueHashes(tokens) ==> UniqueHashes(Revoke(tokens, i))
  {
    var revoked := Revoke(tokens, i);
    assert forall k :: 0 <= k < |tokens| ==> revoked[k].hash == tokens[k].hash;
  }

  // ---------------------------------------------------------------- chains

  predicate Related(s: State, i: int, j: int) {
    0 <= i < j < |s.families| && s.families[i] == s.families[j]
  }

  /** Hashes are unique, and every family is a chain by replacement. */
  ghost predicate Chained(s: State) {
    && |s.parents| == |s.tokens| && |s.families| == |s.tokens|
    && (forall i, j :: 0 <= i < j < |s.tokens| ==> s.tokens[i].hash != s.tokens[j].hash)
    && (forall i :: 0 <= i < |s.tokens| ==> s.families[i] <= i)
    && (forall i :: 0 <= i < |s.tokens| && s.parents[i].None? ==> s.families[i] == i)
    && (forall j :: 0 <= j < |s.tokens| && s.parents[j].Some? ==> Related(s, s.parents[j].value, j))
    // The replaced token is the one before it in the family.
    && (forall i, j :: Related(s, i, j) ==> s.parents[j].Some? && i <= s.parents[j].value)
    // Only the last token of a family can be unrevoked, and expiry never decreases.
    && (forall i, j :: Related(s, i, j) ==>
          s.tokens[i].revoked && s.tokens[i].expiresAt <= s.tokens[j].expiresAt && s.tokens[i].user == s.tokens[j].user)
  }

  ghost predicate Dated(s: State, now: int) {
    forall i :: 0 <= i < |s.tokens| ==> s.tokens[i].expiresAt <= now + LIFETIME
  }

  lemma RotatedIsLast(s: State, r: Request, j: nat)
    requires Chained(s) && Rotated(s, r).Some? && j < |s.tokens|
    requires s.families[j] == s.families[Rotated(s, r).value]
    ensures j <= Rotated(s, r).value
  {
    var i := Rotated(s, r).value;
    if i < j {
      assert Related(s, i, j);
    }
  }

  lemma NewHashIsUnique(s: State, r: Request)
    requires Chained(s) && Stores(s, r)
    ensures forall i :: 0 <= i < |s.tokens| ==> s.tokens[i].hash != r.newHash
  {
  }

  lemma GrantStep(s: State, r: Request)
    requires Chained(s) && Granted(s, r).Some?
    ensures Chained(Step(s, r))
  {
    var t := Step(s, r);
    NewHashIsUnique(s, r);
    forall i, j | Related(t, i, j)
      ensures Related(s, i, j)
    {
      assert t.families[i] <= i;
    }
    forall j | 0 <= j < |t.tokens| && t.parents[j].Some?
      ensures Related(t, t.parents[j].value, j)
    {
      assert Related(s, s.parents[j].value, j);
    }
  }

  lemma RotateStep(s: State, r: Request, before: int)
    requires Chained(s) && Dated(s, before) && before <= r.now && Rotated(s, r).Some?
    ensures Chained(Step(s, r))
  {
    var t, n, k := Step(s, r), |s.tokens|, Rotated(s, r).value;
    NewHashIsUnique(s, r);
    forall i, j | Related(t, i, j)
      ensures t.parents[j].Some? && i <= t.parents[j].value
      ensures t.tokens[i].revoked
      ensures t.tokens[i].expiresAt <= t.tokens[j].expiresAt && t.tokens[i].user == t.tokens[j].user
    {
      if j == n {
        RotatedIsLast(s, r, i);
        assert i == k || Related(s, i, k);
      } else {
        assert Related(s, i, j);
      }
    }
    forall j | 0 <= j < |t.tokens| && t.parents[j].Some?
      ensures Related(t, t.parents[j].value, j)
    {
      assert j == n || Related(s, s.parents[j].value, j);
    }
  }

  lemma LogoutStep(s: State, r: Request)
    requires Chained(s) && LoggedOut(s, r).Some?
    ensures Chained(Step(s, r))
  {
    var t := Step(s, r);
    assert forall i, j :: Related(t, i, j) <==> Related(s, i, j);
    forall j | 0 <= j < |t.tokens| && t.parents[j].Some?
      ensures Related(t, t.parents[j].value, j)
    {
      assert Related(s, s.parents[j].value, j);
    }
  }

  lemma ChainStep(s: State, r: Request, before: int)
    requires Chained(s) && Dated(s, before) && before <= r.now
    ensures Chained(Step(s, r)) && Dated(Step(s, r), r.now)
  {
    if Granted(s, r).Some? {
      GrantStep(s, r);
    } else if Rotated(s, r).Some? {
      RotateStep(s, r, before);
    } else if LoggedOut(s, r).Some? {
      LogoutStep(s, r);
    }
  }

  predicate Sequential(requests: seq<Request>) {
    forall i, j :: 0 <= i < j < |requests| ==> requests[i].now <= requests[j].now
  }

  /** In every sequential run the tokens of each login form one replacement chain. */
  lemma {:induction false} TokensFormChains(users: seq<User>, requests: seq<Request>, now: int)
    requires Sequential(requests) && forall i :: 0 <= i < |requests| ==> requests[i].now <= now
    ensures Chained(Run(Start(users), requests)) && Dated(Run(Start(users), requests), now)
  {
    if requests != [] {
      var last := requests[|requests| - 1];
      TokensFormChains(users, requests[..|requests| - 1], last.now);
      ChainStep(Run(Start(users), requests[..|requests| - 1]), last, last.now);
    }
  }

  /** A token is replaced by one other at most. */
  lemma OneSuccessor(s: State, j: nat, k: nat)
    requires Chained(s) && j < |s.tokens| && k < |s.tokens|
    requires s.parents[j].Some? && s.parents[j] == s.parents[k]
    ensures j == k
  {
    assert Related(s, s.parents[j].value, j) && Related(s, s.parents[k].value, k);
    assert j < k ==> Related(s, j, k);
    assert k < j ==> Related(s, k, j);
  }

  // ---------------------------------------------------------------- history of one token

  /** Rows are only added, keep all but their flag, and never lose the flag. */
  predicate Later(s: State, t: State) {
    && |s.tokens| <= |t.tokens|
    && forall i :: 0 <= i < |s.tokens| ==>
         t.tokens[i] == s.tokens[i].(revoked := t.tokens[i].revoked) && (s.tokens[i].revoked ==> t.tokens[i].revoked)
  }

  lemma StepIsLater(s: State, r: Request)
    ensures Later(s, Step(s, r))
  {
  }

  lemma LaterTransitive(s: State, t: State, u: State)
    requires Later(s, t) && Later(t, u)
    ensures Later(s, u)
  {
  }

  lemma {:induction false} RevokedForGood(s: State, requests: seq<Request>, k: nat)
    requires k <= |requests|
    ensures Later(Run(s, requests[..k]), Run(s, requests))
  {
    if k < |requests| {
      var before := requests[..|requests| - 1];
      assert before[..k] == requests[..k];
      RevokedForGood(s, before, k);
      StepIsLater(Run(s, before), requests[|requests| - 1]);
      LaterTransitive(Run(s, requests[..k]), Run(s, before), Run(s, requests));
    } else {
      assert requests[..k] == requests;
    }
  }

  lemma RotateRevokes(s: State, r: Request)
    requires Rotated(s, r).Some?
    ensures var i, tokens := Rotated(s, r).value, Step(s, r).tokens;
            i < |tokens| && tokens[i].hash == r.hash && tokens[i].revoked
  {
  }

  predicate Accepts(s: State, requests: seq<Request>, k: int, hash: string) {
    && 0 <= k < |requests|
    && requests[k].Refresh? && requests[k].hash == hash
    && Rotated(Run(s, requests[..k]), requests[k]).Some?
  }

  /** No token is accepted by two refreshes of a run. */
  lemma AcceptedOnce(users: seq<User>, requests: seq<Request>, k: int, m: int, hash: string)
    requires Sequential(requests)
    requires Accepts(Start(users), requests, k, hash) && Accepts(Start(users), requests, m, hash)
    ensures k == m
  {
    if k < m {
      AcceptedEarlier(users, requests, k, m, hash);
    } else if m < k {
      AcceptedEarlier(users, requests, m, k, hash);
    }
  }

  lemma AcceptedEarlier(users: seq<User>, requests: seq<Request>, k: int, m: int, hash: string)
    requires Sequential(requests) && 0 <= k < m < |requests|
    requires Accepts(Start(users), requests, k, hash)
    ensures !Accepts(Start(users), requests, m, hash)
  {
    var i := RotatedStaysRevoked(Start(users), requests, k, m);
    ChainedSoFar(users, requests, m);
    RevokedIsRefused(Run(Start(users), requests[..m]), i, requests[m], hash);
  }

  lemma ChainedSoFar(users: seq<User>, requests: seq<Request>, m: nat)
    requires Sequential(requests) && 0 < m <= |requests|
    ensures Chained(Run(Start(users), requests[..m]))
  {
    TokensFormChains(users, requests[..m], requests[m - 1].now);
  }

  lemma RevokedIsRefused(s: State, i: nat, r: Request, hash: string)
    requires Chained(s) && i < |s.tokens| && s.tokens[i].revoked && s.tokens[i].hash == hash
    ensures r.Refresh? && r.hash == hash ==> Rotated(s, r).None?
  {
    var found := FindToken(s.tokens, hash);
    assert found.Some? && found.value == i;
  }

  /** What holds of the tables after request k holds of them later. */
  lemma LaterFrom(s: State, requests: seq<Request>, k: nat, m: nat)
    requires k < m <= |requests|
    ensures Later(Step(Run(s, requests[..k]), requests[k]), Run(s, requests[..m]))
  {
    var next := requests[..k + 1];
    assert next[..k] == requests[..k] && next[k] == requests[k];
    assert requests[..m][..k + 1] == next;
    RevokedForGood(s, requests[..m], k + 1);
  }

  lemma RevokedStays(s: State, t: State, i: nat, hash: string)
    requires Later(s, t) && i < |s.tokens| && s.tokens[i].hash == hash && s.tokens[i].revoked
    ensures i < |t.tokens| && t.tokens[i].hash == hash && t.tokens[i].revoked
  {
  }

  /** The token an accepted refresh presents is revoked from then on. */
  lemma RotatedStaysRevoked(s: State, requests: seq<Request>, k: nat, m: nat) returns (i: nat)
    requires k < m <= |requests| && requests[k].Refresh?
    requires Rotated(Run(s, requests[..k]), requests[k]).Some?
    ensures var tokens := Run(s, requests[..m]).tokens;
            i < |tokens| && tokens[i].hash == requests[k].hash && tokens[i].revoked
  {
    var before := Run(s, requests[..k]);
    i := Rotated(before, requests[k]).value;
    RotateRevokes(before, requests[k]);
    LaterFrom(s, requests, k, m);
    RevokedStays(Step(before, requests[k]), Run(s, requests[..m]), i, requests[k].hash);
  }

  // ---------------------------------------------------------------- acceptance, from the requests alone

  /** The tables before request k of a run that starts without tokens. */
  function Before(users: seq<User>, requests: seq<Request>, k: nat): State
    requires k <= |requests|
  {
    Run(Start(users), requests[..k])
  }

  /** Request k is answered with a new token. */
  predicate IssuedAt(users: seq<User>, requests: seq<Request>, k: int) {
    && 0 <= k < |requests| && !requests[k].Logout?
    && |Before(users, requests, k + 1).tokens| == |Before(users, requests, k).tokens| + 1
  }

  /** Request m is a refresh that presents the hash and is answered, or a logout that does and commits. */
  predicate SpentAt(users: seq<User>, requests: seq<Request>, m: int, hash: string) {
    && 0 <= m < |requests|
    && match requests[m]
       case Refresh(presented, _, _, _) => presented == hash && IssuedAt(users, requests, m)
       case Logout(presented, _, commitRaises) => presented == hash && !commitRaises
       case _ => false
  }

  /** Request k issued the hash under 30 days ago, and no later request spent it. */
  ghost predicate Outstanding(users: seq<User>, requests: seq<Request>, k: int, hash: string, now: int) {
    && IssuedAt(users, requests, k) && requests[k].newHash == hash
    && now < requests[k].now + 30 * 86400
    && !SpentAfter(users, requests, k, hash)
  }

  /** What request k leaves as token i, and whether it has been spent since. */
  ghost predicate Recorded(users: seq<User>, requests: seq<Request>, i: int, k: int) {
    && IssuedAt(users, requests, k)
    && var tokens := Run(Start(users), requests).tokens;
       && i == |Before(users, requests, k).tokens| < |tokens|
       && tokens[i].hash == requests[k].newHash
       && tokens[i].expiresAt == requests[k].now + 30 * 86400
       && (tokens[i].revoked <==> SpentAfter(users, requests, k, tokens[i].hash))
  }

  lemma BeforeLast(users: seq<User>, requests: seq<Request>, k: nat)
    requires k < |requests|
    ensures Before(users, requests, k + 1) == Step(Before(users, requests, k), requests[k])
  {
    var next := requests[..k + 1];
    assert next[..k] == requests[..k] && next[k] == requests[k];
  }

  /** Earlier requests are answered the same in a longer run. */
  lemma SameEarlier(users: seq<User>, requests: seq<Request>, k: int, hash: string)
    requires 0 <= k < |requests| - 1
    ensures IssuedAt(users, requests, k) <==> IssuedAt(users, requests[..|requests| - 1], k)
    ensures SpentAt(users, requests, k, hash) <==> SpentAt(users, requests[..|requests| - 1], k, hash)
  {
    var front := requests[..|requests| - 1];
    assert front[..k] == requests[..k] && front[..k + 1] == requests[..k + 1] && front[k] == requests[k];
  }

  /** A later request than k spends the hash. */
  ghost predicate SpentAfter(users: seq<User>, requests: seq<Request>, k: int, hash: string) {
    exists m :: k < m && SpentAt(users, requests, m, hash)
  }

  lemma SpentSoFar(users: seq<User>, requests: seq<Request>, k: int, hash: string)
    requires requests != [] && k < |requests| - 1
    ensures SpentAfter(users, requests, k, hash)
       <==> SpentAfter(users, requests[..|requests| - 1], k, hash)
            || SpentAt(users, requests, |requests| - 1, hash)
  {
    var front := requests[..|requests| - 1];
    if m :| k < m && SpentAt(users, requests, m, hash) {
      if m < |requests| - 1 {
        SameEarlier(users, requests, m, hash);
      }
    }
    if m :| k < m && SpentAt(users, front, m, hash) {
      SameEarlier(users, requests, m, hash);
    }
  }

  /** One request: the tokens it leaves alone, and the one it spends. */
  lemma StepSpends(s: State, r: Request, i: nat)
    requires UniqueHashes(s.tokens) && i < |s.tokens|
    ensures i < |Step(s, r).tokens|
    ensures Step(s, r).tokens[i] == s.tokens[i].(revoked := Step(s, r).tokens[i].revoked)
    ensures Step(s, r).tokens[i].revoked
       <==> s.tokens[i].revoked
            || (r.Refresh? && r.hash == s.tokens[i].hash && |Step(s, r).tokens| == |s.tokens| + 1)
            || (r.Logout? && r.hash == s.tokens[i].hash && !r.commitRaises)
  {
  }

  lemma StepIssues(s: State, r: Request)
    requires |Step(s, r).tokens| != |s.tokens|
    ensures !r.Logout? && |Step(s, r).tokens| == |s.tokens| + 1
    ensures var token := Step(s, r).tokens[|s.tokens|];
            token.hash == r.newHash && token.expiresAt == r.now + 30 * 86400 && !token.revoked
  {
  }

  lemma HashesUnique(users: seq<User>, requests: seq<Request>)
    requires Sequential(requests)
    ensures UniqueHashes(Run(Start(users), requests).tokens)
  {
    if requests != [] {
      TokensFormChains(users, requests, requests[|requests| - 1].now);
    }
  }

  /** One more request keeps the record of a token. */
  lemma RecordStays(users: seq<User>, requests: seq<Request>, i: nat, k: int)
    requires requests != [] && Sequential(requests) && Recorded(users, requests[..|requests| - 1], i, k)
    ensures Recorded(users, requests, i, k)
  {
    var n := |requests| - 1;
    var front, r := requests[..n], requests[n];
    var s := Run(Start(users), front);
    SameEarlier(users, requests, k, "");
    assert front[..k] == requests[..k];
    HashesUnique(users, front);
    StepSpends(s, r, i);
    SpentSoFar(users, requests, k, s.tokens[i].hash);
    LastSpends(users, requests, s.tokens[i].hash);
  }

  lemma LastSpends(users: seq<User>, requests: seq<Request>, hash: string)
    requires requests != []
    ensures var s, r := Run(Start(users), requests[..|requests| - 1]), requests[|requests| - 1];
            var spent := if r.Refresh? then r.hash == hash && |Step(s, r).tokens| == |s.tokens| + 1
                         else r.Logout? && r.hash == hash && !r.commitRaises;
            SpentAt(users, requests, |requests| - 1, hash) == spent
  {
    BeforeLast(users, requests, |requests| - 1);
  }

  /** The last request leaves a record of the token it issues. */
  lemma RecordStarts(users: seq<User>, requests: seq<Request>)
    requires requests != [] && IssuedAt(users, requests, |requests| - 1)
    ensures Recorded(users, requests, |Run(Start(users), requests[..|requests| - 1]).tokens|, |requests| - 1)
  {
    var n := |requests| - 1;
    assert requests[..|requests|] == requests;
    BeforeLast(users, requests, n);
    StepIssues(Before(users, requests, n), requests[n]);
  }

  lemma {:induction false} EveryTokenRecorded(users: seq<User>, requests: seq<Request>, i: nat) returns (k: int)
    requires Sequential(requests) && i < |Run(Start(users), requests).tokens|
    ensures Recorded(users, requests, i, k)
  {
    var n := |requests| - 1;
    var s := Run(Start(users), requests[..n]);
    if i < |s.tokens| {
      k := EveryTokenRecorded(users, requests[..n], i);
      RecordStays(users, requests, i, k);
    } else {
      k := n;
      StepIssues(s, requests[n]);
      BeforeLast(users, requests, n);
      assert requests[..|requests|] == requests;
      RecordStarts(users, requests);
    }
  }

  lemma {:induction false} EveryIssueRecorded(users: seq<User>, requests: seq<Request>, k: nat)
    requires Sequential(requests) && IssuedAt(users, requests, k)
    ensures Recorded(users, requests, |Before(users, requests, k).tokens|, k)
  {
    var i := |Before(users, requests, k).tokens|;
    assert requests[..|requests|] == requests;
    BeforeLast(users, requests, k);
    StepIssues(Before(users, requests, k), requests[k]);
    LaterFrom(Start(users), requests, k, |requests|);
    var j := EveryTokenRecorded(users, requests, i);
    SameIssue(users, requests, j, k);
  }

  /** Two requests that issue the same position are one. */
  lemma SameIssue(users: seq<User>, requests: seq<Request>, j: nat, k: nat)
    requires IssuedAt(users, requests, j) && IssuedAt(users, requests, k)
    requires |Before(users, requests, j).tokens| == |Before(users, requests, k).tokens|
    ensures j == k
  {
    if j < k {
      GrowsBetween(users, requests, j, k);
    } else if k < j {
      GrowsBetween(users, requests, k, j);
    }
  }

  lemma GrowsBetween(users: seq<User>, requests: seq<Request>, j: nat, k: nat)
    requires j < k < |requests|
    ensures |Before(users, requests, j + 1).tokens| <= |Before(users, requests, k).tokens|
  {
    BeforeLast(users, requests, j);
    LaterFrom(Start(users), requests, j, k);
  }

  /**
    In every sequential run a refresh is answered with a new token if and only if its
    transaction commits, its new hash was never issued, and the hash it presents was
    issued under 30 days ago, by a login or by another answered refresh, and presented by
    no answered refresh and no committed logout since.
   */
  lemma RefreshAcceptedIff(users: seq<User>, requests: seq<Request>, hash: string, newHash: string, now: int,
                           commitRaises: bool)
    requires Sequential(requests)
    ensures IssuedAt(users, requests + [Refresh(hash, newHash, now, commitRaises)], |requests|)
       <==> && !commitRaises
            && (forall k :: IssuedAt(users, requests, k) ==> requests[k].newHash != newHash)
            && exists k :: Outstanding(users, requests, k, hash, now)
  {
    var r := Refresh(hash, newHash, now, commitRaises);
    var all, s := requests + [r], Run(Start(users), requests);
    assert all[..|requests|] == requests && all[..|requests| + 1] == all;
    BeforeLast(users, all, |requests|);
    assert Before(users, all, |requests|) == s;
    TakenIffIssued(users, requests, newHash);
    PresentableIffOutstanding(users, requests, hash, now);
    AnsweredIff(s, hash, newHash, now, commitRaises);
  }

  lemma AnsweredIff(s: State, hash: string, newHash: string, now: int, commitRaises: bool)
    ensures |Step(s, Refresh(hash, newHash, now, commitRaises)).tokens| == |s.tokens| + 1
       ==> !commitRaises && !HashTaken(s.tokens, newHash) && exists i :: Presentable(s.tokens, i, hash, now)
    ensures UniqueHashes(s.tokens) && !commitRaises && !HashTaken(s.tokens, newHash)
            && (exists i :: Presentable(s.tokens, i, hash, now))
       ==> |Step(s, Refresh(hash, newHash, now, commitRaises)).tokens| == |s.tokens| + 1
  {
    var found := Rotated(s, Refresh(hash, newHash, now, commitRaises));
    if found.Some? {
      assert Presentable(s.tokens, found.value, hash, now);
    }
  }

  lemma TakenIffIssued(users: seq<User>, requests: seq<Request>, hash: string)
    requires Sequential(requests)
    ensures HashTaken(Run(Start(users), requests).tokens, hash)
       <==> exists k :: IssuedAt(users, requests, k) && requests[k].newHash == hash
    ensures UniqueHashes(Run(Start(users), requests).tokens)
  {
    var tokens := Run(Start(users), requests).tokens;
    HashesUnique(users, requests);
    if i :| 0 <= i < |tokens| && tokens[i].hash == hash {
      var k := EveryTokenRecorded(users, requests, i);
    }
    if k :| IssuedAt(users, requests, k) && requests[k].newHash == hash {
      EveryIssueRecorded(users, requests, k);
      assert tokens[|Before(users, requests, k).tokens|].hash == hash;
    }
  }

  lemma PresentableIffOutstanding(users: seq<User>, requests: seq<Request>, hash: string, now: int)
    requires Sequential(requests)
    ensures (exists i :: Presentable(Run(Start(users), requests).tokens, i, hash, now))
       <==> exists k :: Outstanding(users, requests, k, hash, now)
  {
    var tokens := Run(Start(users), requests).tokens;
    if i :| Presentable(tokens, i, hash, now) {
      var k := EveryTokenRecorded(users, requests, i);
      assert Outstanding(users, requests, k, hash, now);
    }
    if k :| Outstanding(users, requests, k, hash, now) {
      EveryIssueRecorded(users, requests, k);
      assert Presentable(tokens, |Before(users, requests, k).tokens|, hash, now);
    }
  }

  // ---------------------------------------------------------------- conservation

  /** The user's tokens that are not revoked. */
  function Live(tokens: seq<RefreshToken>, user: nat): nat {
    if tokens == [] then 0 else
      var last := tokens[|tokens| - 1];
      Live(tokens[..|tokens| - 1], user) + if last.user == user && !last.revoked then 1 else 0
  }

  lemma {:induction false} LiveAfterRevoke(tokens: seq<RefreshToken>, i: nat, user: nat)
    requires i < |tokens| && !tokens[i].revoked
    ensures Live(tokens, user) == Live(Revoke(tokens, i), user) + if tokens[i].user == user then 1 else 0
  {
    var n, revoked := |tokens| - 1, Revoke(tokens, i);
    if i == n {
      assert revoked[..n] == tokens[..n];
    } else {
      LiveAfterRevoke(tokens[..n], i, user);
      assert revoked[..n] == Revoke(tokens[..n], i);
    }
  }

  lemma LiveAfterIssue(tokens: seq<RefreshToken>, token: RefreshToken, user: nat)
    ensures Live(tokens + [token], user) == Live(tokens, user) + if token.user == user && !token.revoked then 1 else 0
  {
    assert (tokens + [token])[..|tokens|] == tokens;
  }

  /** First pairs issued to the user by register, login and OTP. */
  function PairsIssued(s: State, requests: seq<Request>, user: nat): nat {
    if requests == [] then 0 else
      var before := requests[..|requests| - 1];
      PairsIssued(s, before, user) + if Granted(Run(s, before), requests[|requests| - 1]) == Some(user) then 1 else 0
  }

  /** Logouts that revoked a token of the user. */
  function Logouts(s: State, requests: seq<Request>, user: nat): nat {
    if requests == [] then 0 else
      var before := requests[..|requests| - 1];
      var at := Run(s, before);
      var out := LoggedOut(at, requests[|requests| - 1]);
      Logouts(s, before, user) + if out.Some? && at.tokens[out.value].user == user then 1 else 0
  }

  /** Unrevoked tokens are pairs issued minus effective logouts; rotation changes neither side. */
  lemma {:induction false} TokensAreConserved(s: State, requests: seq<Request>, user: nat)
    ensures Live(Run(s, requests).tokens, user) + Logouts(s, requests, user)
         == Live(s.tokens, user) + PairsIssued(s, requests, user)
  {
    if requests != [] {
      var before, r := requests[..|requests| - 1], requests[|requests| - 1];
      var at := Run(s, before);
      TokensAreConserved(s, before, user);
      if Granted(at, r).Some? {
        LiveAfterIssue(at.tokens, Issued(Granted(at, r).value, r.newHash, r.now), user);
      } else if Rotated(at, r).Some? {
        var i := Rotated(at, r).value;
        LiveAfterRevoke(at.tokens, i, user);
        LiveAfterIssue(Revoke(at.tokens, i), Issued(at.tokens[i].user, r.newHash, r.now), user);
      } else if LoggedOut(at, r).Some? {
        LiveAfterRevoke(at.tokens, LoggedOut(at, r).value, user);
      }
    }
  }
}
