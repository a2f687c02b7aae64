# Login monitoring and brute-force blacklisting, in Dafny

This project models the decision logic of a small family of Python security
tools that watch login attempts and block attacking IP addresses:

- **The command-line analyser** (`Projecto/analytics.py`). It groups log
  rows by IP and applies three sliding-window rules to each IP's failures:
  10 failures in 5 minutes, 30 in 24 hours, and 5 distinct users in 10
  minutes. The resulting blacklist entries are temporary or permanent. The
  module also computes summary statistics.
- **The command-line login** (`Projecto/login_cli.py`). It checks the
  blacklist read-only, then applies a per-user capped exponential backoff
  before comparing passwords.
- **The final project** (`Projecto_2/Projecto_final`):
  - a blacklist store whose lookup deletes expired temporary records;
  - an analyser that runs the same three rules with deques and merges its
    verdicts into the store;
  - accounts that lock for a doubling number of minutes from the third
    failure on;
  - the login command, which consults the blacklist first.
- **The hardened login exercise** (`exercicio2_login_seguro/auth.py`).
  Accounts lock for `30 * 2^(n-5)` seconds from the fifth failure on.
  An unknown user and a wrong password on an unlocked account get the
  same message; a locked account is told so.
- **The multi-format log analyser** (`analisador_logs`):
  - a format guess and key normalisation for CSV, JSON, JSON-lines and
    pipe files;
  - status canonicalisation;
  - failure counts per IP and per user, and the suspicious IPs.
- **The classroom variant** (`analisador_logs/exemplos_CIT`): a format
  guess, record normalisation, failure counts, the most-targeted users and
  the suspicious IPs.

**Modelling choices**

- Everything is a pure function or a method on immutable values.
- Stores (blacklists, account tables, backoff state) are Dafny `map`s, and
  what an operation writes back is part of its result.
- Python dictionaries whose insertion order is observable are association
  lists (`Tally.Counter`).
- Times are integer seconds.
- Password hashing, IP-address validation and base64 decoding are boolean
  parameters.

**Shared pieces**

- `Windows` states the window rules once, as predicates over the sorted
  failure times (`Burst`, `Scatter`). Both analysers' scans are proved to
  decide exactly those predicates.
- `Tally` and `Seqs` hold the counting, filtering and sorting that several
  modules share.
- `Scenarios` replays the attacks the two log generators inject and proves
  what each analyser decides on them.

## Model

| member | source | states |
|---|---|---|
| Windows.Times | Projecto/analytics.py:73 | The failure times keep the order and the count of the failures they come from. |
| Windows.TimesSorted | Projecto/analytics.py:69-73 | Failures sorted by time give a non-decreasing list of timestamps, which is what the two-pointer scans rely on. |
| Windows.BurstStep | Projecto/analytics.py:78-81 | Once the left pointer has passed every failure more than `w` seconds before failure `k`, adding failure `k` creates a qualifying window exactly when the current window holds `n` failures. |
| Windows.ScatterStep | Projecto/analytics.py:111-116 | The distinct-users version of the step: adding failure `k` creates a qualifying window exactly when the current window names `n` users. |
| Windows.ScatterLast | Projecto/analytics.py:113-116 | A window of `n` users that first appears at failure `k` is already counted by the window that ends at `k` and starts at the left pointer. |
| Windows.BurstScan | Projecto/analytics.py:75-90 | Rules 1 and 2 fire exactly when some window of at most `w` seconds holds `n` failures. A failure exactly `w` seconds older still counts, because only strictly older ones are dropped. |
| Windows.ScatterScan | Projecto/analytics.py:107-127 | Rule 3 fires exactly when some run of failures spanning at most `w` seconds names `n` distinct users. |
| Windows.BurstUpToWider | Projecto/analytics.py:78-90 | Once a window qualifies it stays found however many further failures are scanned. This is why the scan may stop at the first hit. |
| Windows.ScatterUpToWider | Projecto/analytics.py:111-127 | The same for the distinct-users rule. |
| CliRules.FailEvents | Projecto/analytics.py:64-73 | An IP's failures reach the rules in time order. |
| CliRules.FailEventsOwnFailsOnly | Projecto/analytics.py:64-73 | An IP's failure list is its own rows whose result starts with "fail", sorted by time. Other IPs' rows and successes play no part. |
| CliRules.IpOutcome | Projecto/analytics.py:75-127 | The rules run in order against the entry as each leaves it. Rule 1 writes a one-hour temporary entry and rule 2 a permanent one. Rule 3 writes a one-hour entry unless the entry is then permanent. |
| CliRules.ApplyIp | Projecto/analytics.py:69-127 | One pass of the per-IP loop gives that IP its rule outcome and leaves every other IP's entry as loaded. |
| CliRules.ApplyRules | Projecto/analytics.py:59-129 | After `apply_rules` every IP holds the outcome of the three rules on its own failures, starting from its loaded entry. |
| CliRules.NoRowsNoFails | Projecto/analytics.py:64-67 | An IP absent from the log has no failures. |
| CliRules.NoFailsUnchanged | Projecto/analytics.py:69-129 | When no rule fires the loaded entry survives unchanged, including an expired temporary entry. |
| CliRules.LongRuleWins | Projecto/analytics.py:92-105 | When rule 2 fires the IP ends permanent, whatever rules 1 and 3 did. |
| CliRules.WrittenEntriesStamped | Projecto/analytics.py:82-126 | Every entry the rules write has "since" = now. A temporary one also has "until" = now + 3600 and a permanent one has no "until". |
| CliRules.ScatterKeepsPermanent | Projecto/analytics.py:116-127 | When only rule 3 fires, a loaded permanent entry is kept. |
| CliRules.ShortRuleDowngrades | Projecto/analytics.py:81-90 | Rule 1 writes unconditionally, so it replaces a loaded permanent entry with a temporary one unless rule 2 also fires. |
| CliRules.RulesIdempotent | Projecto/analytics.py:59-129 | Running the rules twice on the same log at the same time gives the same blacklist as running them once. |
| CliRules.SameFailsSameOutcome | Projecto/analytics.py:64-73 | Two logs with the same failures from an IP give it the same outcome. |
| CliRules.DistinctUsersByIp | Projecto/analytics.py:137-147 | Each IP with a failure appears once, in order of its first failure, paired with the number of distinct users its failed rows attacked. |
| CliRules.Stats | Projecto/analytics.py:133-157 | The statistics count every row. The by-result table holds each result text seen, once, in first-seen order, with its number of rows. Each ranking holds min(10, number of IPs with a failure) entries, largest first, taken from its full per-IP table, and no IP left out has a larger count than one kept. |
| CliRules.StatsTopIps | Projecto/analytics.py:141-145 | A top-IP entry's count is the number of failed rows from that IP, and the ranking names each IP once. |
| CliRules.StatsTopUsers | Projecto/analytics.py:141-150 | A distinct-users entry's count is the number of distinct users that IP's failed rows attacked. |
| CliRules.StatsByResult | Projecto/analytics.py:139-140 | The count stored for a result text is the number of rows carrying it. |
| CliLogin.IsIpBlocked | Projecto/login_cli.py:28-37 | A permanent entry always blocks. A temporary entry blocks only while now is before its "until", read as 0 when missing. Any other entry, or none, does not block. The type is reported when blocked and "" otherwise. |
| CliLogin.BlockedEarlier | Projecto/login_cli.py:28-37 | The lookup never changes the blacklist, so an IP blocked at some time was blocked, with the same type, at every earlier time. |
| CliLogin.Backoff | Projecto/login_cli.py:12-13 | A backoff wait lies between 5 seconds and 15 minutes. |
| CliLogin.BackoffFirst | Projecto/login_cli.py:87 | The first failure waits 5 seconds. |
| CliLogin.BackoffMonotone | Projecto/login_cli.py:103 | The wait never shrinks as consecutive failures accumulate. |
| CliLogin.BackoffShape | Projecto/login_cli.py:10-13 | The wait doubles up to the eighth failure and is capped at 900 seconds from the ninth on. |
| CliLogin.Login | Projecto/login_cli.py:59-106 | The gates run in order: invalid IP (nothing logged), blocked IP, backoff lockout, unknown user, password. Once the three gates pass, the logged outcome is fail_no_user for an unknown user, success for a good password and fail_bad_pwd otherwise. Only a success resets the user's state. Both failure kinds raise the counter by one and set the next allowed time to now plus the backoff. Nothing but that user's state is saved. |
| CliLogin.LoginTrims | Projecto/login_cli.py:60-61 | Whitespace around the typed username and IP makes no difference. |
| CliLogin.PasswordOnlyAfterGates | Projecto/login_cli.py:62-91 | When any earlier gate stops the attempt, the password has no influence on the outcome. |
| CliLogin.FailureLocksOut | Projecto/login_cli.py:83-105 | After a saved failure, an immediate retry is turned away as "local_lockout". |
| FinalStorage.IsIpBlocked | Projecto_2/Projecto_final/storage.py:49-73 | A "perm" record blocks permanently. A "temp" record whose "until" parses blocks while now is strictly before it; once expired it is deleted and written back. A missing, empty or unparsable "until", an unknown type and no record all answer "not blocked" without a write. |
| FinalStorage.LookupFrame | Projecto_2/Projecto_final/storage.py:69-71 | A lookup deletes at most the looked-up IP's record. |
| FinalStorage.LookupAfterExpiry | Projecto_2/Projecto_final/storage.py:66-72 | After an expired record has been deleted, every later lookup answers "not blocked" and writes nothing. |
| FinalStorage.LookupNeverBlocksLater | Projecto_2/Projecto_final/storage.py:49-73 | An IP not blocked now is not blocked at any later time. |
| FinalAnalyzer.NormalizeResult | Projecto_2/Projecto_final/analyzer.py:21 | The result field is the raw field stripped of surrounding whitespace and upper-cased, character by character; it has no lower-case letter. |
| FinalAnalyzer.NormalizeResultReads | Projecto_2/Projecto_final/analyzer.py:21 | A padded spelling of SUCCESS or FAIL in any case normalises to that word. |
| FinalAnalyzer.NormalizeResultIdempotent | Projecto_2/Projecto_final/analyzer.py:21 | Normalising an already normalised result changes nothing. |
| FinalAnalyzer.ParseRow | Projecto_2/Projecto_final/analyzer.py:10-21 | Parsing keeps time, user and IP and normalises the result. |
| FinalAnalyzer.Analyze | Projecto_2/Projecto_final/analyzer.py:36-56 | The summary counts every row, its SUCCESS and FAIL counts are the numbers of such rows, and together they are at most the total. The per-IP and per-user tables are the tallies of the FAIL rows' IPs and users, reordered largest first: each key's entry is its number of FAIL rows. |
| FinalAnalyzer.FailSuccessDisjoint | Projecto_2/Projecto_final/analyzer.py:43-49 | No row counts both as a success and as a failure. |
| FinalAnalyzer.AnalyzePerIp | Projecto_2/Projecto_final/analyzer.py:43-47 | In the summary, an IP's FAIL count is the number of FAIL rows from it. |
| FinalAnalyzer.AnalyzePerUser | Projecto_2/Projecto_final/analyzer.py:43-47 | In the summary, a user's FAIL count is the number of FAIL rows against it. |
| FinalAnalyzer.OccPositive | Projecto_2/Projecto_final/analyzer.py:86-93 | A user occurs in the window exactly when it is one of the window's users. |
| FinalAnalyzer.CountsPositive | Projecto_2/Projecto_final/analyzer.py:88-93 | Every value kept in `users_window` is at least 1. |
| FinalAnalyzer.AddUserCounts | Projecto_2/Projecto_final/analyzer.py:92-93 | Appending a failure adds its user to `users_window`, which still counts each user of the widened window exactly. |
| FinalAnalyzer.DropUserCounts | Projecto_2/Projecto_final/analyzer.py:87-91 | Popping the oldest failure and deleting counts that reach zero leaves the exact counts of the narrowed window, with no zero entries. |
| FinalAnalyzer.SlideTimes | Projecto_2/Projecto_final/analyzer.py:79-85 | After a time deque is slid and extended, it holds exactly the failures within `w` seconds of the newest. Its length reaching `n` means the window rule has fired. |
| FinalAnalyzer.SlideUsers | Projecto_2/Projecto_final/analyzer.py:87-93 | After the users deque is slid and extended, `users_window` has one key per user of the window. Its size reaching `n` means the distinct-users rule has fired. |
| FinalAnalyzer.DropOldUsers | Projecto_2/Projecto_final/analyzer.py:87-91 | The popleft loop stops at the first failure within `w` seconds of the newest one, with the window description intact. |
| FinalAnalyzer.ScanStep | Projecto_2/Projecto_final/analyzer.py:77-101 | One iteration keeps the three deques, `users_window` and the two flags in step with the failures seen so far. |
| FinalAnalyzer.ScanIp | Projecto_2/Projecto_final/analyzer.py:68-101 | `perm` is set exactly when some 24-hour window holds 30 failures. `temp` is set exactly when some 5-minute window holds 10, or some 10-minute window names 5 users. |
| FinalAnalyzer.IpEvents | Projecto_2/Projecto_final/analyzer.py:63-69 | An IP's FAIL events reach the scan in time order. |
| FinalAnalyzer.VerdictOf | Projecto_2/Projecto_final/analyzer.py:102-106 | A permanent verdict wins. Otherwise a temporary verdict lasts until an hour after the IP's last failure. Otherwise there is no verdict. |
| FinalAnalyzer.VerdictsOfAt | Projecto_2/Projecto_final/analyzer.py:68-106 | The i-th verdict of the per-IP loop is the verdict for the i-th IP's own failures. |
| FinalAnalyzer.VerdictList | Projecto_2/Projecto_final/analyzer.py:68-106 | The per-IP loop produces each IP's verdict in order. |
| FinalAnalyzer.Collect | Projecto_2/Projecto_final/analyzer.py:102-106 | `to_block` holds exactly the IPs that got a verdict, each with its own verdict. |
| FinalAnalyzer.Verdicts | Projecto_2/Projecto_final/analyzer.py:63-106 | `to_block` holds exactly the IPs whose failures earn a verdict, each mapped to its verdict. |
| FinalAnalyzer.NoFailsNoVerdict | Projecto_2/Projecto_final/analyzer.py:63-66 | An IP with no FAIL row gets no verdict. |
| FinalAnalyzer.MergeVerdicts | Projecto_2/Projecto_final/analyzer.py:108-121 | The merge stores a verdict when the IP has no non-empty record or a record of another type, and keeps a record of the same type. `changed` says exactly whether any record was stored. |
| FinalAnalyzer.DetectAndBlock | Projecto_2/Projecto_final/analyzer.py:58-122 | Both halves together: the returned verdicts are exactly those the rules earn, the blacklist is their merge, and it is unchanged when nothing was stored. |
| FinalAnalyzer.MergeDowngrades | Projecto_2/Projecto_final/analyzer.py:112-116 | The type comparison is a plain inequality, so a stored "perm" record is replaced by a "temp" verdict. |
| FinalAnalyzer.MergeKeepsSameType | Projecto_2/Projecto_final/analyzer.py:112-116 | A stored record of the verdict's type keeps its old "until". |
| FinalAuth.CheckLockout | Projecto_2/Projecto_final/auth.py:29-42 | An account is locked exactly when its "lockout_until" is set, parses, and lies strictly after now. The lock time is then reported. |
| FinalAuth.LockoutSecs | Projecto_2/Projecto_final/auth.py:72-77 | A lockout lasts at least one minute. |
| FinalAuth.LockoutDoubles | Projecto_2/Projecto_final/auth.py:74-75 | Each further failure doubles the lockout. |
| FinalAuth.LockoutGrows | Projecto_2/Projecto_final/auth.py:73-77 | Later failures lock strictly longer. |
| FinalAuth.RecordFailure | Projecto_2/Projecto_final/auth.py:68-78 | A wrong password raises the counter by one and stamps "last_failed". From the third failure it locks for 2^(n-3) minutes; before that the lock is left as it was. |
| FinalAuth.Authenticate | Projecto_2/Projecto_final/auth.py:44-80 | An unknown user gets FAIL with nothing saved. A locked account gets LOCKED with nothing saved. Otherwise the attempt is saved: a correct password clears the counter and lock and logs SUCCESS, a wrong one is recorded as a failure and logs FAIL. The message is the generic invalid-credentials one for an unknown user and a wrong password, the lock end for a locked account, and the success message exactly on success. |
| FinalAuth.UnknownIndistinguishable | Projecto_2/Projecto_final/auth.py:47-50 | An unknown user and a wrong password on an unlocked account get the same log event and the same message. |
| FinalAuth.FailureLocksAccount | Projecto_2/Projecto_final/auth.py:72-77 | From the third consecutive failure on, any retry before the lockout ends is answered LOCKED, with the lock end, whatever the password. |
| FinalAuth.FirstFailuresDoNotLock | Projecto_2/Projecto_final/auth.py:68-78 | The first two consecutive failures never lock the account. |
| FinalAuth.SuccessResetsCount | Projecto_2/Projecto_final/auth.py:61-65 | After a success the next failure counts as the first again. |
| FinalAuth.CreateUser | Projecto_2/Projecto_final/auth.py:15-27 | An existing name is refused. A new one gets an unlocked account with no failures. |
| FinalAuth.CreatedThenAuthenticates | Projecto_2/Projecto_final/auth.py:15-67 | A freshly created account authenticates with the right password. |
| FinalAuth.Login | Projecto_2/Projecto_final/main.py:19-28 | The blacklist is consulted first. A blocked IP stops before authentication. Otherwise the credentials are authenticated against the accounts, and the blacklist is returned as the lookup left it (an expired record deleted). |
| FinalAuth.BlockedNeverAuthenticates | Projecto_2/Projecto_final/main.py:22-25 | An IP with a permanent or live temporary record never reaches authentication and leaves the blacklist as it was. |
| SecureAuth.LockSecs | Projecto_2/Python_Tkinter_Login_Inseguro_Seguro/exercicio2_login_seguro/auth.py:30-32 | A lock lasts at least 30 seconds. |
| SecureAuth.LockGrows | Projecto_2/Python_Tkinter_Login_Inseguro_Seguro/exercicio2_login_seguro/auth.py:30-32 | Later failures lock strictly longer. |
| SecureAuth.RegisterFail | Projecto_2/Python_Tkinter_Login_Inseguro_Seguro/exercicio2_login_seguro/auth.py:28-33 | A failure raises the counter by one. From the fifth it locks the account from now for 30 * 2^(n-5) seconds; before that the lock is left as it was. |
| SecureAuth.RegisterSuccess | Projecto_2/Python_Tkinter_Login_Inseguro_Seguro/exercicio2_login_seguro/auth.py:35-38 | A success clears the counter and the lock and keeps the secret. |
| SecureAuth.Authenticate | Projecto_2/Python_Tkinter_Login_Inseguro_Seguro/exercicio2_login_seguro/auth.py:40-68 | An unknown user and an undecodable record get the generic message and change nothing. A locked account gets the lock message and changes nothing. Otherwise the password decides between a registered success and a registered failure. |
| SecureAuth.UnknownIndistinguishable | Projecto_2/Python_Tkinter_Login_Inseguro_Seguro/exercicio2_login_seguro/auth.py:42-48 | An unknown user and a wrong password on an unlocked account get the same message. |
| SecureAuth.FifthFailureLocks | Projecto_2/Python_Tkinter_Login_Inseguro_Seguro/exercicio2_login_seguro/auth.py:28-33 | From the fifth consecutive failure on, every retry before the lock ends is refused with the lock message. |
| SecureAuth.BelowFifthDoesNotLock | Projecto_2/Python_Tkinter_Login_Inseguro_Seguro/exercicio2_login_seguro/auth.py:28-33 | Failures that stay below the fifth never lock an unlocked account. |
| SecureAuth.CreateUser | Projecto_2/Python_Tkinter_Login_Inseguro_Seguro/exercicio2_login_seguro/auth.py:13-23 | Creating an account adds or replaces only that name, storing the given secret with no failures and no lock. |
| SecureAuth.CreatedThenAuthenticates | Projecto_2/Python_Tkinter_Login_Inseguro_Seguro/exercicio2_login_seguro/auth.py:13-65 | A freshly created account logs in with the right password and keeps its clean record. |
| SecureAuth.RecreateUnlocks | Projecto_2/Python_Tkinter_Login_Inseguro_Seguro/exercicio2_login_seguro/auth.py:13-23 | Re-creating an existing account unlocks it. |
| LogIo.CleanIsFixed | Projecto_2/analisador_logs/io_utils.py:44 | A stripped, lower-cased key is unchanged by stripping and lower-casing again. |
| LogIo.CanonicalKeyTrims | Projecto_2/analisador_logs/io_utils.py:44 | Whitespace around a raw key does not change its canonical key. |
| LogIo.NamesSpec | Projecto_2/analisador_logs/io_utils.py:43-45 | The normalised record has a key exactly for the canonical key of some input item. |
| LogIo.Rekey | Projecto_2/analisador_logs/io_utils.py:42-45 | The re-keyed record has exactly the canonical keys of the items. |
| LogIo.RekeyLastWins | Projecto_2/analisador_logs/io_utils.py:43-45 | When several raw keys map to the same canonical key, the last item's value wins. |
| LogIo.Normalize | Projecto_2/analisador_logs/io_utils.py:30-48 | A normalised record has exactly the items' canonical keys plus timestamp, ip, user and status. |
| LogIo.NormalizeValues | Projecto_2/analisador_logs/io_utils.py:42-47 | Each key holds its last item's value. A missing standard field is null. Any other missing key is absent. |
| LogIo.LastExists | Projecto_2/analisador_logs/io_utils.py:43-45 | A key carried by some item has a last item carrying it. |
| LogIo.Head | Projecto_2/analisador_logs/io_utils.py:24 | The head contains a character exactly when one of the first three lines does. |
| LogIo.ChooseFormat | Projecto_2/analisador_logs/io_utils.py:16-28 | The suffix decides JSON-lines and JSON, case-insensitively. Otherwise the file is pipe-delimited exactly when its head has a '|' and no ','. Everything else is CSV. |
| LogIo.CommaMeansCsv | Projecto_2/analisador_logs/io_utils.py:25-28 | A comma in any of the first three lines means CSV unless the suffix says JSON. |
| LogParser.Canonical | Projecto_2/analisador_logs/parser.py:14-18 | Words of the success list become "success". Words of the failure list become "fail". Anything else is left as it is. |
| LogParser.ParseRecord | Projecto_2/analisador_logs/parser.py:7-19 | The timestamp is kept. String IPs and users are stripped. A status is present exactly when the raw one is not null. Its lower-cased text becomes "success" exactly when it is a success word, "fail" exactly when it is a failure word, and is kept as it is otherwise. |
| LogParser.StatusOf | Projecto_2/analisador_logs/parser.py:12-18 | A status is null exactly when the raw one is. Otherwise the raw value's lower-cased text, integers written in decimal, maps to "success" or "fail" exactly for the listed words, and any other text is kept. |
| LogParser.HttpStatus | Projecto_2/analisador_logs/parser.py:12-18 | The integer status 200 becomes "success" and 401, 403 and 500 become "fail". |
| LogParser.CanonicalIsCanonical | Projecto_2/analisador_logs/parser.py:14-18 | A lower-case status is canonical after the mapping. |
| LogParser.ParseRecords | Projecto_2/analisador_logs/parser.py:5-19 | Records are parsed one for one, in order. |
| LogParser.CanonicalFixed | Projecto_2/analisador_logs/parser.py:12-18 | A canonical status is unchanged by lower-casing and mapping again. |
| LogParser.ParseIdempotent | Projecto_2/analisador_logs/parser.py:7-19 | Parsing a parsed record again gives the same record. |
| LogParser.BooleanStatus | Projecto_2/analisador_logs/parser.py:12-18 | A JSON boolean status becomes "success" for true and "fail" for false, because `str(True).lower()` is "true". |
| LogAnalytics.Bucket | Projecto_2/analisador_logs/analytics.py:16-17 | A counter key is always a string or a number, and a falsy field becomes "unknown". |
| LogAnalytics.UnknownBucket | Projecto_2/analisador_logs/analytics.py:16 | A failure with a missing or empty IP is counted under "unknown". |
| LogAnalytics.KeyLessTransitive | Projecto_2/analisador_logs/analytics.py:40 | The order `sorted` uses on the suspicious keys is transitive. |
| LogAnalytics.KeyLessTotal | Projecto_2/analisador_logs/analytics.py:40 | That order relates any two distinct keys. |
| LogAnalytics.InsertKey | Projecto_2/analisador_logs/analytics.py:40 | Inserting into a strictly increasing list keeps it strictly increasing and adds exactly the new key. |
| LogAnalytics.SortKeys | Projecto_2/analisador_logs/analytics.py:40 | The sorted set of keys is strictly increasing and has exactly the keys given. |
| LogAnalytics.SortSuspicious | Projecto_2/analisador_logs/analytics.py:40 | Sorting fails exactly when strings and numbers are mixed. Otherwise it returns the keys, each once, in increasing order. |
| LogAnalytics.Suspicious | Projecto_2/analisador_logs/analytics.py:24-26 | A key is suspicious exactly when its counter entry reaches 3. |
| LogAnalytics.SuspiciousAt | Projecto_2/analisador_logs/analytics.py:24-26 | With distinct keys, a key is suspicious exactly when its count reaches 3. |
| LogAnalytics.SuspiciousGet | Projecto_2/analisador_logs/analytics.py:21-26 | An IP bucket is suspicious exactly when it failed at least 3 times, and every suspicious key is a string or a number. |
| LogAnalytics.Analyze | Projecto_2/analisador_logs/analytics.py:6-41 | `fail` is the total minus the "success" rows. The per-IP and per-user tables hold each bucket with a failure, once, in first-failure order, with its number of failures. The suspicious list is the IPs with at least 3 failures, sorted, or an error exactly when it mixes strings and numbers. |
| LogAnalytics.SuccessFailSplit | Projecto_2/analisador_logs/analytics.py:18-22 | Every record is either a success or a failure, never both. |
| CitParser.DetectFormat | Projecto_2/analisador_logs/exemplos_CIT/parser.py:5-16 | The format is the verdict of the first of the first five lines that matches a rule: CSV header, then a pipe with a space on each side, then a braced object. It is CSV when none matches. |
| CitParser.Build | Projecto_2/analisador_logs/exemplos_CIT/parser.py:18-27 | Timestamp and IP are stripped. The user is stripped and lower-cased. Success means the lower-cased, stripped status is "true", "ok" or "1". |
| CitParser.Normalizar | Projecto_2/analisador_logs/exemplos_CIT/parser.py:18-27 | Each field is read with "" as its default before being normalised. |
| CitParser.MissingStatusFails | Projecto_2/analisador_logs/exemplos_CIT/parser.py:20-21 | A record without a status is a failure. |
| CitParser.ParsePipe | Projecto_2/analisador_logs/exemplos_CIT/parser.py:36-46 | Each line with exactly four pipe-separated parts yields one record, in order. Every other line is skipped. |
| CitParser.ParsePipeAppend | Projecto_2/analisador_logs/exemplos_CIT/parser.py:37-46 | Lines are parsed independently, so the records of two stretches of lines are the records of each, concatenated. |
| CitParser.ParseLinhas | Projecto_2/analisador_logs/exemplos_CIT/parser.py:29-54 | CSV and JSON-lines rows are normalised one for one. Pipe lines go through `ParsePipe`. An unknown format yields nothing. |
| CitAnalytics.FailCount | Projecto_2/analisador_logs/exemplos_CIT/analytics.py:6-9 | Counting keys of failures one at a time gives, for each value, the number of failed records with that value. |
| CitAnalytics.CountByKey | Projecto_2/analisador_logs/exemplos_CIT/analytics.py:6-10 | Each key is listed once with a positive count equal to its number of failed records, and the counts add up to the number of failures. |
| CitAnalytics.ContarFalhasPorIp | Projecto_2/analisador_logs/exemplos_CIT/analytics.py:4-10 | Each IP with a failure is listed once, in the order the IPs first failed, with its number of failed records; the counts add up to the number of failures. |
| CitAnalytics.TopUtilizadoresVisados | Projecto_2/analisador_logs/exemplos_CIT/analytics.py:12-18 | The result holds min(k, number of users) distinct users, with their true failure counts, largest first. No user left out failed more often than a user kept. A non-positive `k` gives nothing. |
| CitAnalytics.TopFacts | Projecto_2/analisador_logs/exemplos_CIT/analytics.py:18 | A ranking taken from the counter keeps true counts, distinct users and the dominance over left-out users. |
| CitAnalytics.IpsSuspeitos | Projecto_2/analisador_logs/exemplos_CIT/analytics.py:32-34 | An IP is listed exactly when its count reaches the limit, each IP once when the counter's keys are distinct. |
| CitAnalytics.SuspectsInOrder | Projecto_2/analisador_logs/exemplos_CIT/analytics.py:32-34 | The suspicious IPs are the counter's entries reaching the limit, in the counter's order. |
| CitAnalytics.SuspectsFailedOften | Projecto_2/analisador_logs/exemplos_CIT/analytics.py:32-34 | Read together with the per-IP counts, an IP is suspicious exactly when it failed at least `limite` times, and at least once. |
| CitAnalytics.Analisar | Projecto_2/analisador_logs/exemplos_CIT/main.py:19-25 | The report's counts and top users come from the records of the detected format. At most 3 users are ranked. The suspects are the IPs with at least 3 failures. |
| Scenarios.SpacedBurst | Projecto/generate_logs.py:26-30 | Evenly spaced failures trip a window rule as soon as `n` consecutive ones fit in the window. |
| Scenarios.SparseNoBurst | Projecto_2/Projecto_final/generate_logs.py:30-35 | Failures spaced further apart than the window never put two of them in it. |
| Scenarios.SpacedScatter | Projecto/generate_logs.py:32-35 | Evenly spaced failures against distinct users trip the distinct-users rule as soon as `n` consecutive ones fit in the window. |
| Scenarios.DistinctUsers | Projecto/generate_logs.py:33-35 | Distinct names give as many attacked users as failures. |
| Scenarios.CliBurstScenario | Projecto/generate_logs.py:26-30 | The injected burst (12 failures, 15 seconds apart) earns a fresh one-hour temporary entry whatever was loaded. |
| Scenarios.CliScatterScenario | Projecto/generate_logs.py:32-35 | The injected scatter (6 users, 60 seconds apart) earns a one-hour scatter entry, except that a loaded permanent entry is kept. |
| Scenarios.FinalBurstScenario | Projecto_2/Projecto_final/generate_logs.py:23-29 | The final generator's burst (12 failures, 20 seconds apart) earns a temporary block until an hour after its last failure. |
| Scenarios.FinalLongScenario | Projecto_2/Projecto_final/generate_logs.py:30-35 | The long-term attacker (32 failures, 10 minutes apart) earns a permanent block. |
| Scenarios.FinalLongNotShort | Projecto_2/Projecto_final/generate_logs.py:30-35 | Those 32 failures never trip the 5-minute rule. |
| Tally.GetPermutation | Projecto_2/Projecto_final/analyzer.py:54-55 | Reordering a counter with distinct keys keeps every key's count. |
| Tally.RankedCounts | Projecto/analytics.py:145-150 | An entry ranked from a tally carries its key's number of occurrences, which is positive, and the ranking names each key once. |
| Tally.TopK | Projecto/analytics.py:145-150 | The first `k` entries of a descending sort: largest first, taken from the counter, none left out larger than one kept. |
| Tally.SortDesc | Projecto/analytics.py:145 | Sorting a counter by count, descending, permutes it and keeps its total. |
| Tally.TallyGet | Projecto/analytics.py:139-143 | A counter built by bumping once per occurrence holds each key's number of occurrences. |
| Tally.TallyKeys | Projecto/analytics.py:139-143 | Its keys are the distinct values, in order of first occurrence, like a Python dict. |
| Tally.TotalPermutation | Projecto/analytics.py:145-150 | Reordering a counter keeps its total. |
| Seqs.SortBy | Projecto/analytics.py:70 | Sorting by a key gives a list ordered by that key, of the same length. |
| Seqs.SortByPermutes | Projecto/analytics.py:70 | Sorting only reorders: the result has the same elements with the same multiplicities. |

## Left out

- Files, JSON, CSV and console I/O, and the report modules are not modelled. Stores are `map`s, and what an operation would write back is part of its result. The CSV and JSON(-lines) readers of the two log analysers are parameters: rows arrive already read.
- Timestamp parsing and formatting (`fromisoformat`, `strptime`, ISO strings) are not modelled. Times are integer seconds, so a record's "until" is either absent, unparsable, or a number.
- Float seconds and the difference between naive and aware datetimes are not modelled.
- The percentages of both log analysers are left out, because they are floating point.
- Password hashing (PBKDF2, `hmac.compare_digest`), salt generation, base64 decoding and `ipaddress.ip_address` are boolean parameters. The timing padding for unknown users is not modelled.
- The clock is the parameter `now`. Where the source reads the clock twice in one call, both readings are taken to be the same instant.
- Lower-casing and upper-casing are ASCII only. Stripping uses Python's whitespace set.
- Seqs.SortBy: stability of Python's sort is not proved. Only order by key and permutation are stated.
- Tally.TopK: Python's tie order among equal counts is not stated.
- Lookups of a missing key (for example `entry["type"]` on a record without "type"), which raise `KeyError` in the source, are not modelled. A record's type field is always present, possibly as an unknown text.
- LogIo.Normalize: keys are strings. A CSV row with more cells than the header, whose extra cells `csv.DictReader` stores under the key `None` so that `k.strip()` raises `AttributeError`, is not modelled.
- CSV cells read as `None` and non-string field values in the classroom analyser, on which `.strip()` would raise, are not modelled. Its fields are strings.
- LogParser.ParseRecord: JSON values are strings, integers, booleans or null. Floats and nested values are not modelled.
- LogAnalytics.Bucket: a true value is counted under the key 1, as in a Python dict. Which spelling of the key is reported is not modelled: Python keeps the first one inserted, so a leading `True` is reported as `True`, not `1`.
- LogAnalytics.KeyLess: numbers sort before strings. A list mixing both is reported as an error (`Mixed`), which is where Python's `sorted` raises `TypeError`.
- LogIo.ChooseFormat: the extension is taken as given (`Path.suffix` is not modelled), and the existence check is not modelled.
- CliRules.ApplyRules: the blacklist is written once per IP with the rules' combined outcome, rather than once per rule. The final state is the same.
- The command-line analyser's `main`, `create_user` and the interactive prompts are not modelled. Only the decision logic of `login` is.
- FinalAuth.Authenticate: a stored account that is an empty record, which `if not user_rec` treats as unknown, is not modelled; every stored account has its fields. The lock end is a time, not the ISO text the message prints.
- The hardened exercise's authentication has no IP gate in its source: only the other two logins consult a blacklist. The final project's IP gate lives in `main.py` (`cmd_login`) and is modelled there as `FinalAuth.Login`.
- The log generators' random benign traffic is not modelled. Only their injected attacks are replayed, in `Scenarios`.
- The Tkinter user interfaces, the insecure login exercise and the loggers are not part of this model.
