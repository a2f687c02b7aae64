/** The command-line login (`Projecto/login_cli.py`): the read-only
    blacklist lookup and the decision logic of `login`, with its per-user
    failure counter and capped exponential backoff. */
module CliLogin {
  import opened Base
  import CliRules
  import Text

  const BaseBackoff: nat := 5
  const MaxBackoff: nat := 15 * 60

  /** `is_ip_blocked(ip)` at time `now`: a permanent entry always blocks; a
      temporary one blocks while `now` is before its "until" (0 when the
      field is missing); nothing is ever removed. The second component is
      the entry's type when blocked and "" otherwise. */
  function IsIpBlocked(bl: CliRules.Blacklist, ip: string, now: int): (r: (bool, string))
    ensures r.0 ==> ip in bl && r.1 == bl[ip].kind
    ensures !r.0 ==> r.1 == ""
    ensures ip in bl && bl[ip].kind == CliRules.Permanent ==> r.0
    ensures ip in bl && bl[ip].kind == CliRules.Temporary ==> (r.0 <==> now < bl[ip].until.GetOr(0))
    ensures ip in bl && bl[ip].kind != CliRules.Permanent && bl[ip].kind != CliRules.Temporary ==> !r.0
  {
    if ip in bl then
      var entry := bl[ip];
      if entry.kind == CliRules.Permanent then (true, CliRules.Permanent)
      else if entry.kind == CliRules.Temporary && now < entry.until.GetOr(0) then (true, CliRules.Temporary)
      else (false, "")
    else (false, "")
  }

  /** A block seen at some time was already in force at every earlier time
      (entries only run out, since the lookup never adds or changes one). */
  lemma BlockedEarlier(bl: CliRules.Blacklist, ip: string, now: int, later: int)
    requires now <= later && IsIpBlocked(bl, ip, later).0
    ensures IsIpBlocked(bl, ip, now) == IsIpBlocked(bl, ip, later)
  {
  }

  /** `min(MAX_BACKOFF, BASE_BACKOFF * 2 ** (fails - 1))`, computed only
      after the counter has been incremented, so `fails >= 1`. */
  function Backoff(fails: nat): (b: nat)
    requires fails >= 1
    ensures BaseBackoff <= b <= MaxBackoff
  {
    Min(MaxBackoff, BaseBackoff * Pow2(fails - 1))
  }

  /** The first failure waits 5 seconds. */
  lemma BackoffFirst()
    ensures Backoff(1) == 5
  {
  }

  /** The wait never shrinks as failures pile up. */
  lemma BackoffMonotone(f: nat, g: nat)
    requires 1 <= f <= g
    ensures Backoff(f) <= Backoff(g)
  {
    Pow2Monotone(f - 1, g - 1);
  }

  /** The wait doubles up to the eighth failure and is 15 minutes from the
      ninth on. */
  lemma BackoffShape(f: nat)
    requires f >= 1
    ensures f <= 8 ==> Backoff(f) == 5 * Pow2(f - 1)
    ensures f >= 9 ==> Backoff(f) == 900
  {
    if f <= 8 {
      Pow2Monotone(f - 1, 7);
      assert Pow2(7) == 128;
    } else {
      Pow2Monotone(8, f - 1);
      assert Pow2(8) == 256;
    }
  }

  /** A user's persisted state: consecutive failures and the earliest time
      of the next allowed attempt. */
  datatype UState = UState(fails: nat, nextAllowed: int)

  /** `state.setdefault(username, {"fails": 0, "next_allowed": 0})`. */
  function Current(state: map<string, UState>, username: string): UState {
    if username in state then state[username] else UState(0, 0)
  }

  /** What a login attempt leaves behind: the result column of the line
      appended to the attempt log (none if nothing is logged), the user
      state as persisted afterwards, whether it was saved, and whether the
      login succeeded. */
  datatype LoginResult = LoginResult(logged: Option<string>, state: map<string, UState>, saved: bool, ok: bool)

  /** Records a failure: one more consecutive failure and a wait of
      `Backoff` from `now`. */
  function Failed(state: map<string, UState>, username: string, now: int): map<string, UState> {
    var fails := Current(state, username).fails + 1;
    state[username := UState(fails, now + Backoff(fails))]
  }

  /** `login()` with its inputs as parameters: the typed username and IP
      are trimmed first; the IP validity check, the user lookup and the
      password check are oracles (`ipValid`, `knownUser`, `passwordOk`) on
      the trimmed values. The gates run in order: invalid IP, blacklisted
      IP, backoff lockout, unknown user, password. */
  function Login(typedUser: string, typedIp: string, ipValid: bool, bl: CliRules.Blacklist,
                 knownUser: bool, state: map<string, UState>, now: int, passwordOk: bool): (r: LoginResult)
    ensures var username, ip := Text.Strip(typedUser), Text.Strip(typedIp);
      && (!ipValid ==> r == LoginResult(None, state, false, false))
      && (ipValid && IsIpBlocked(bl, ip, now).0 ==>
            r == LoginResult(Some("blocked_" + IsIpBlocked(bl, ip, now).1), state, false, false))
      && (ipValid && !IsIpBlocked(bl, ip, now).0 && now < Current(state, username).nextAllowed ==>
            r == LoginResult(Some("local_lockout"), state, false, false))
      && (ipValid && !IsIpBlocked(bl, ip, now).0 && now >= Current(state, username).nextAllowed ==>
            r.logged == Some(if !knownUser then "fail_no_user" else if passwordOk then "success" else "fail_bad_pwd"))
      && (r.ok <==> r.logged == Some("success"))
      && (r.ok ==> knownUser && passwordOk && r.state == state[username := UState(0, 0)])
      && (r.logged == Some("fail_no_user") || r.logged == Some("fail_bad_pwd") ==>
            r.saved && username in r.state && r.state[username].fails == Current(state, username).fails + 1
            && r.state[username].nextAllowed == now + Backoff(r.state[username].fails))
      && (r.saved ==> forall u :: u != username ==> (u in r.state <==> u in state) && (u in state ==> r.state[u] == state[u]))
      && (!r.saved ==> r.state == state)
  {
    var username, ip := Text.Strip(typedUser), Text.Strip(typedIp);
    if !ipValid then LoginResult(None, state, false, false)
    else
      var (blocked, btype) := IsIpBlocked(bl, ip, now);
      if blocked then LoginResult(Some("blocked_" + btype), state, false, false)
      else if now < Current(state, username).nextAllowed then LoginResult(Some("local_lockout"), state, false, false)
      else if !knownUser then LoginResult(Some("fail_no_user"), Failed(state, username, now), true, false)
      else if passwordOk then LoginResult(Some("success"), state[username := UState(0, 0)], true, true)
      else LoginResult(Some("fail_bad_pwd"), Failed(state, username, now), true, false)
  }

  /** Surrounding whitespace in what is typed makes no difference: the
      attempt behaves as if the trimmed values had been typed. */
  lemma {:induction false} LoginTrims(typedUser: string, typedIp: string, ipValid: bool, bl: CliRules.Blacklist,
                                      knownUser: bool, state: map<string, UState>, now: int, passwordOk: bool)
    ensures Login(typedUser, typedIp, ipValid, bl, knownUser, state, now, passwordOk)
         == Login(Text.Strip(typedUser), Text.Strip(typedIp), ipValid, bl, knownUser, state, now, passwordOk)
  {
    Text.StripIdempotent(typedUser);
    Text.StripIdempotent(typedIp);
  }

  /** The password is only asked for once every gate before it has passed:
      when the IP is invalid or blocked, the account is waiting out its
      backoff, or the user is unknown, the answer does not depend on it. */
  lemma PasswordOnlyAfterGates(username: string, ip: string, ipValid: bool, bl: CliRules.Blacklist,
                               knownUser: bool, state: map<string, UState>, now: int)
    requires !ipValid || IsIpBlocked(bl, Text.Strip(ip), now).0
          || now < Current(state, Text.Strip(username)).nextAllowed || !knownUser
    ensures Login(username, ip, ipValid, bl, knownUser, state, now, true)
         == Login(username, ip, ipValid, bl, knownUser, state, now, false)
  {
  }

  /** A saved failure always locks the account for at least 5 seconds, so an
      attempt at the same instant is turned away before the password. */
  lemma FailureLocksOut(username: string, ip: string, bl: CliRules.Blacklist,
                        knownUser: bool, state: map<string, UState>, now: int, passwordOk: bool, pw2: bool)
    requires Text.Strip(username) == username && Text.Strip(ip) == ip
    requires !IsIpBlocked(bl, ip, now).0
    requires Login(username, ip, true, bl, knownUser, state, now, passwordOk).logged in {Some("fail_no_user"), Some("fail_bad_pwd")}
    ensures var after := Login(username, ip, true, bl, knownUser, state, now, passwordOk).state;
      Login(username, ip, true, bl, knownUser, after, now, pw2).logged == Some("local_lockout")
  {
  }
}
