/** The hardened login exercise (`exercicio2_login_seguro/auth.py`):
    account creation, the lock check, and authentication with a failure
    counter that locks the account for 30 * 2^(n - 5) seconds from the
    fifth consecutive failure on. */
module SecureAuth {
  import opened Base

  const LockMaxAttempts: nat := 5
  const LockBaseSeconds: nat := 30

  /** A stored account: the encoded salt and digest (opaque here), the
      consecutive failures and the time the account is locked until
      (0 when not locked). */
  datatype SecRec = SecRec(secret: string, failCount: nat, lockedUntil: int)

  type Users = map<string, SecRec>

  /** `_locked`: the account is locked while `now` is strictly before
      "locked_until". */
  predicate Locked(rec: SecRec, now: int) {
    now < rec.lockedUntil
  }

  /** The lock imposed by the `count`-th consecutive failure. */
  function LockSecs(count: nat): (s: nat)
    requires count >= LockMaxAttempts
    ensures s >= LockBaseSeconds
  {
    LockBaseSeconds * Pow2(count - LockMaxAttempts)
  }

  /** Each further failure locks at least as long, and strictly longer. */
  lemma LockGrows(a: nat, b: nat)
    requires LockMaxAttempts <= a < b
    ensures LockSecs(a) < LockSecs(b)
  {
    Pow2StrictlyMonotone(a - LockMaxAttempts, b - LockMaxAttempts);
  }

  /** `_register_fail`: one more failure; from the fifth on, locked for
      `LockSecs` from `now`; below five the old lock is kept. */
  function RegisterFail(rec: SecRec, now: int): (r: SecRec)
    ensures r.secret == rec.secret && r.failCount == rec.failCount + 1
    ensures r.failCount >= LockMaxAttempts ==> r.lockedUntil == now + LockSecs(r.failCount) && Locked(r, now)
    ensures r.failCount < LockMaxAttempts ==> r.lockedUntil == rec.lockedUntil
  {
    var count := rec.failCount + 1;
    if count >= LockMaxAttempts then rec.(failCount := count, lockedUntil := now + LockSecs(count))
    else rec.(failCount := count)
  }

  /** `_register_success`: the counter and the lock are cleared. */
  function RegisterSuccess(rec: SecRec): (r: SecRec)
    ensures r.secret == rec.secret && r.failCount == 0 && r.lockedUntil == 0
  {
    rec.(failCount := 0, lockedUntil := 0)
  }

  /** The answer of `authenticate` and the accounts afterwards. */
  datatype SecResult = SecResult(ok: bool, message: string, users: Users)

  const Generic: string := "Credenciais inválidas."
  const LockedMsg: string := "Conta temporariamente bloqueada. Tenta novamente mais tarde."
  const Done: string := "Autenticação concluída."

  /** `authenticate(username, password)` at time `now`. Decoding the stored
      salt, iteration count and digest is the oracle `decodeOk`, the
      digest comparison the oracle `passwordOk`. An unknown user and an
      undecodable record get the generic message and change nothing (so a
      corrupt record never counts failures); a locked account is refused
      before the password is looked at. */
  function Authenticate(users: Users, username: string, now: int, decodeOk: bool, passwordOk: bool): (r: SecResult)
    ensures username !in users ==> r == SecResult(false, Generic, users)
    ensures username in users && Locked(users[username], now) ==> r == SecResult(false, LockedMsg, users)
    ensures username in users && !Locked(users[username], now) && !decodeOk ==> r == SecResult(false, Generic, users)
    ensures r.ok <==> username in users && !Locked(users[username], now) && decodeOk && passwordOk
    ensures r.ok ==> r.message == Done && r.users == users[username := RegisterSuccess(users[username])]
    ensures username in users && !Locked(users[username], now) && decodeOk && !passwordOk ==>
      r == SecResult(false, Generic, users[username := RegisterFail(users[username], now)])
  {
    if username !in users then SecResult(false, Generic, users)
    else
      var rec := users[username];
      if Locked(rec, now) then SecResult(false, LockedMsg, users)
      else if !decodeOk then SecResult(false, Generic, users)
      else if passwordOk then SecResult(true, Done, users[username := RegisterSuccess(rec)])
      else SecResult(false, Generic, users[username := RegisterFail(rec, now)])
  }

  /** An unknown user and a wrong password on an unlocked account get the
      same message, so that answer does not reveal whether the account
      exists. */
  lemma UnknownIndistinguishable(users: Users, known: string, unknown: string, now: int)
    requires unknown !in users
    requires known in users && !Locked(users[known], now)
    ensures Authenticate(users, unknown, now, true, false).message
         == Authenticate(users, known, now, true, false).message
  {
  }

  /** From the fifth consecutive failure on, any retry before the lock runs
      out is refused whatever the password. */
  lemma FifthFailureLocks(users: Users, username: string, now: int, later: int, pw: bool)
    requires username in users && !Locked(users[username], now)
    requires users[username].failCount + 1 >= LockMaxAttempts
    requires now <= later < now + LockSecs(users[username].failCount + 1)
    ensures var after := Authenticate(users, username, now, true, false).users;
      Authenticate(after, username, later, true, pw) == SecResult(false, LockedMsg, after)
  {
  }

  /** The account after `n` consecutive wrong passwords, all at `now`. */
  function FailTimes(rec: SecRec, n: nat, now: int): SecRec
    decreases n
  {
    if n == 0 then rec else FailTimes(RegisterFail(rec, now), n - 1, now)
  }

  /** Failures that stay below the fifth never lock an unlocked account. */
  lemma {:induction false} BelowFifthDoesNotLock(rec: SecRec, n: nat, now: int)
    requires rec.failCount + n < LockMaxAttempts && !Locked(rec, now)
    ensures FailTimes(rec, n, now).failCount == rec.failCount + n
    ensures !Locked(FailTimes(rec, n, now), now)
    decreases n
  {
    if n > 0 {
      BelowFifthDoesNotLock(RegisterFail(rec, now), n - 1, now);
    }
  }

  /** `create_user`: stores a fresh account under the name, replacing any
      existing one (no duplicate check), with no failures and no lock. The
      random salt and the digest come in as `secret`. */
  function CreateUser(users: Users, username: string, secret: string): (r: Users)
    ensures r.Keys == users.Keys + {username}
    ensures r[username] == SecRec(secret, 0, 0)
    ensures r[username].failCount == 0 && !Locked(r[username], 0)
    ensures forall u :: u in users && u != username ==> r[u] == users[u]
  {
    users[username := SecRec(secret, 0, 0)]
  }

  /** A freshly created account authenticates with the right password:
      it is unlocked at any time from the epoch on, and the record it
      stores decodes. */
  lemma CreatedThenAuthenticates(users: Users, username: string, secret: string, now: int)
    requires now >= 0
    ensures var r := Authenticate(CreateUser(users, username, secret), username, now, true, true);
      r.ok && r.message == Done && r.users[username] == SecRec(secret, 0, 0)
  {
  }

  /** Re-creating an account unlocks it and clears its failures. */
  lemma RecreateUnlocks(users: Users, username: string, secret: string, now: int)
    requires now >= 0
    ensures !Locked(CreateUser(users, username, secret)[username], now)
  {
  }
}
