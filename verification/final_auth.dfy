/** The final project's accounts (`Projecto_final/auth.py`) and the login
    command that puts the blacklist in front of them (`Projecto_final/main.py`):
    account creation, the lockout check, and authentication with its
    failure counter and exponential lockout. */
module FinalAuth {
  import opened Base
  import opened FinalStorage

  /** A stored account: the salted password digest (opaque here), the
      consecutive failures, the "lockout_until" field and the time of the
      last failure. */
  datatype UserRec = UserRec(hash: string, failedAttempts: nat, lockoutUntil: Stamp, lastFailed: Option<int>)

  type Users = map<string, UserRec>

  /** The failure count from which every further failure locks the account. */
  const LockFrom: nat := 3

  /** `_check_lockout`: the time the account is locked until, when its
      "lockout_until" field parses and lies strictly after `now`; nothing
      when the field is empty, unparseable, or already past. */
  function CheckLockout(rec: UserRec, now: int): (r: Option<int>)
    ensures r.Some? <==> rec.lockoutUntil.At? && now < rec.lockoutUntil.t
    ensures r.Some? ==> r.value == rec.lockoutUntil.t && now < r.value
  {
    match rec.lockoutUntil
    case At(t) => if now < t then Some(t) else None
    case _ => None
  }

  /** The length in seconds of the lockout imposed by the `attempts`-th
      consecutive failure: 2^(attempts - 3) minutes. */
  function LockoutSecs(attempts: nat): (s: nat)
    requires attempts >= LockFrom
    ensures s >= 60
  {
    60 * Pow2(attempts - LockFrom)
  }

  /** Each further failure doubles the lockout. */
  lemma {:induction false} LockoutDoubles(attempts: nat)
    requires attempts >= LockFrom
    ensures LockoutSecs(attempts + 1) == 2 * LockoutSecs(attempts)
  {
    assert attempts + 1 - LockFrom == (attempts - LockFrom) + 1;
  }

  /** Later failures lock strictly longer. */
  lemma LockoutGrows(a: nat, b: nat)
    requires LockFrom <= a < b
    ensures LockoutSecs(a) < LockoutSecs(b)
  {
    Pow2StrictlyMonotone(a - LockFrom, b - LockFrom);
  }

  /** The message `authenticate` returns: the generic "Credenciais
      inválidas.", the lockout notice naming the time the lock ends, or the
      success message. */
  datatype AuthMsg = InvalidCredentials | LockedUntil(until: int) | Authenticated

  /** The log event, the message shown, whether the login succeeded, and the
      accounts as persisted afterwards (with whether they were written back). */
  datatype AuthResult = AuthResult(event: string, msg: AuthMsg, ok: bool, users: Users, saved: bool)

  /** Records a wrong password: one more consecutive failure, the time of
      it, and from the third one on a lockout of `LockoutSecs` from `now`
      (below three the old "lockout_until" is left as it was). */
  function RecordFailure(rec: UserRec, now: int): (r: UserRec)
    ensures r.hash == rec.hash && r.failedAttempts == rec.failedAttempts + 1
    ensures r.lastFailed == Some(now)
    ensures r.failedAttempts >= LockFrom ==> r.lockoutUntil == At(now + LockoutSecs(r.failedAttempts))
    ensures r.failedAttempts < LockFrom ==> r.lockoutUntil == rec.lockoutUntil
  {
    var attempts := rec.failedAttempts + 1;
    var lock := if attempts >= LockFrom then At(now + LockoutSecs(attempts)) else rec.lockoutUntil;
    rec.(failedAttempts := attempts, lastFailed := Some(now), lockoutUntil := lock)
  }

  /** `authenticate(username, password, ip)` at time `now`, with the digest
      comparison as the oracle `passwordOk`. An unknown user fails without
      revealing that it is unknown and without any write; a locked account
      answers LOCKED before the password is looked at; a success clears the
      counter, the last failure and the lockout; a failure goes through
      `RecordFailure`. */
  function Authenticate(users: Users, username: string, now: int, passwordOk: bool): (r: AuthResult)
    ensures username !in users ==> r == AuthResult("FAIL", InvalidCredentials, false, users, false)
    ensures username in users && CheckLockout(users[username], now).Some? ==>
      r == AuthResult("LOCKED", LockedUntil(CheckLockout(users[username], now).value), false, users, false)
    ensures username in users && CheckLockout(users[username], now).None? && !passwordOk ==>
      r.event == "FAIL" && r.msg == InvalidCredentials
    ensures r.ok <==> r.event == "SUCCESS"
    ensures r.ok <==> r.msg == Authenticated
    ensures r.ok <==> username in users && CheckLockout(users[username], now).None? && passwordOk
    ensures r.ok ==> r.saved && r.users == users[username := UserRec(users[username].hash, 0, NoStamp, None)]
    ensures r.saved && !r.ok ==> username in users && r.users == users[username := RecordFailure(users[username], now)]
    ensures r.saved <==> username in users && CheckLockout(users[username], now).None?
    ensures !r.saved ==> r.users == users
  {
    if username !in users then AuthResult("FAIL", InvalidCredentials, false, users, false)
    else
      var rec := users[username];
      var lock := CheckLockout(rec, now);
      if lock.Some? then AuthResult("LOCKED", LockedUntil(lock.value), false, users, false)
      else if passwordOk then
        AuthResult("SUCCESS", Authenticated, true, users[username := rec.(failedAttempts := 0, lastFailed := None, lockoutUntil := NoStamp)], true)
      else AuthResult("FAIL", InvalidCredentials, false, users[username := RecordFailure(rec, now)], true)
  }

  /** An unknown user and a wrong password on an unlocked account are logged
      and answered alike, so neither reveals whether the account exists. */
  lemma UnknownIndistinguishable(users: Users, known: string, unknown: string, now: int)
    requires unknown !in users
    requires known in users && CheckLockout(users[known], now).None?
    ensures var u := Authenticate(users, unknown, now, true);
      var k := Authenticate(users, known, now, false);
      u.event == k.event == "FAIL" && u.msg == k.msg == InvalidCredentials
  {
  }

  /** From the third consecutive failure on, a retry at any time before the
      lockout ends is answered LOCKED whatever the password. */
  lemma {:induction false} FailureLocksAccount(users: Users, username: string, now: int, later: int, pw: bool)
    requires username in users && CheckLockout(users[username], now).None?
    requires users[username].failedAttempts + 1 >= LockFrom
    requires now <= later < now + LockoutSecs(users[username].failedAttempts + 1)
    ensures var after := Authenticate(users, username, now, false).users;
      Authenticate(after, username, later, pw)
        == AuthResult("LOCKED", LockedUntil(now + LockoutSecs(users[username].failedAttempts + 1)), false, after, false)
  {
    var after := Authenticate(users, username, now, false).users;
    assert after[username] == RecordFailure(users[username], now);
    assert CheckLockout(after[username], later).Some?;
  }

  /** The first two failures of a fresh account lock nothing. */
  lemma FirstFailuresDoNotLock(users: Users, username: string, now: int, later: int, pw: bool)
    requires username in users && users[username].failedAttempts + 1 < LockFrom
    requires CheckLockout(users[username], now).None? && CheckLockout(users[username], later).None?
    ensures var after := Authenticate(users, username, now, false).users;
      Authenticate(after, username, later, pw).event != "LOCKED"
  {
  }

  /** After a success the next failure counts as the first one again. */
  lemma SuccessResetsCount(users: Users, username: string, now: int, later: int)
    requires Authenticate(users, username, now, true).ok
    ensures var after := Authenticate(users, username, now, true).users;
      Authenticate(after, username, later, false).users[username].failedAttempts == 1
  {
  }

  /** `create_user`: refuses an existing name (the error surfaces as a
      message), otherwise stores a fresh account with no failures, no
      lockout and no last failure. The random salt and the digest computed
      from it come in as `hash`. */
  function CreateUser(users: Users, username: string, hash: string): (r: Result<Users>)
    ensures r.Failure? <==> username in users
    ensures r.Success? ==> r.value == users[username := UserRec(hash, 0, NoStamp, None)]
  {
    if username in users then Failure("Utilizador já existe.")
    else Success(users[username := UserRec(hash, 0, NoStamp, None)])
  }

  /** A freshly created account is not locked and authenticates with the
      right password. */
  lemma CreatedThenAuthenticates(users: Users, username: string, hash: string, now: int)
    requires CreateUser(users, username, hash).Success?
    ensures Authenticate(CreateUser(users, username, hash).value, username, now, true).ok
  {
  }

  /** What one `login` command leaves behind: the blacklist answer (if
      blocked), the blacklist afterwards, and the authentication outcome
      when it was reached. */
  datatype LoginRun = LoginRun(blocked: Option<Status>, black: Blacklist, auth: Option<AuthResult>)

  /** `cmd_login`: the IP is looked up in the blacklist first (which may
      delete an expired record); a blocked IP exits before any credentials
      are read, otherwise the credentials are authenticated. */
  function Login(black: Blacklist, ip: string, users: Users, username: string, now: int, passwordOk: bool): (r: LoginRun)
    ensures r.blocked.Some? <==> r.auth.None?
    ensures r.blocked == IsIpBlocked(black, ip, now).status
    ensures r.black == IsIpBlocked(black, ip, now).black
    ensures r.auth.Some? ==> r.auth.value == Authenticate(users, username, now, passwordOk)
  {
    var lookup := IsIpBlocked(black, ip, now);
    if lookup.status.Some? then LoginRun(lookup.status, lookup.black, None)
    else LoginRun(None, lookup.black, Some(Authenticate(users, username, now, passwordOk)))
  }

  /** A blacklisted IP never reaches the accounts: nothing is logged by
      `authenticate` and no account changes, whatever the credentials. */
  lemma BlockedNeverAuthenticates(black: Blacklist, ip: string, users: Users, username: string, now: int, pw: bool)
    requires ip in black && (black[ip].kind == Some(Perm) || LiveTemp(black[ip], now))
    ensures Login(black, ip, users, username, now, pw).auth.None?
    ensures Login(black, ip, users, username, now, pw).black == black
  {
  }
}
