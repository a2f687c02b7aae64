/** The final project's blacklist store (`storage.py`): records keyed by
    IP, and `is_ip_blocked`, which answers from a record and deletes a
    temporary record that has run out. */
module FinalStorage {
  import opened Base

  /** An ISO-8601 time field of a stored record: absent (or empty), present
      but not parseable, or a parsed time in seconds. */
  datatype Stamp = NoStamp | BadStamp | At(t: int)

  /** A blacklist record: its "type" field ("perm", "temp", or anything
      else) and its "until" field. */
  datatype BlackRecord = BlackRecord(kind: Option<string>, until: Stamp)

  type Blacklist = map<string, BlackRecord>

  const Perm: string := "perm"
  const Temp: string := "temp"

  /** What `is_ip_blocked` reports for a blocked IP. */
  datatype Status = Permanent | TemporaryUntil(until: int)

  /** The answer, the blacklist afterwards, and whether it was written back. */
  datatype Lookup = Lookup(status: Option<Status>, black: Blacklist, persisted: bool)

  /** A "temp" record whose "until" parses and lies strictly after `now`. */
  predicate LiveTemp(rec: BlackRecord, now: int) {
    rec.kind == Some(Temp) && rec.until.At? && now < rec.until.t
  }

  /** A "temp" record whose "until" parses and is not after `now`. */
  predicate ExpiredTemp(rec: BlackRecord, now: int) {
    rec.kind == Some(Temp) && rec.until.At? && now >= rec.until.t
  }

  /** `is_ip_blocked(ip, now)`: a "perm" record blocks whatever the time; a
      "temp" record blocks while `now` is before its "until"; an expired
      "temp" record is deleted and the blacklist written back; a missing or
      unparseable "until", an unknown type, or no record at all answer
      "not blocked" and change nothing. */
  function IsIpBlocked(black: Blacklist, ip: string, now: int): (r: Lookup)
    ensures r.status == Some(Permanent) <==> ip in black && black[ip].kind == Some(Perm)
    ensures r.status.Some? && r.status.value.TemporaryUntil? <==> ip in black && LiveTemp(black[ip], now)
    ensures r.status.Some? && r.status.value.TemporaryUntil? ==> r.status.value.until == black[ip].until.t
    ensures r.persisted <==> ip in black && ExpiredTemp(black[ip], now)
    ensures r.persisted ==> r.black == black - {ip} && r.status == None
    ensures !r.persisted ==> r.black == black
  {
    if ip !in black then Lookup(None, black, false)
    else
      var rec := black[ip];
      if rec.kind == Some(Perm) then Lookup(Some(Permanent), black, false)
      else if rec.kind == Some(Temp) then
        match rec.until
        case NoStamp => Lookup(None, black, false)
        case BadStamp => Lookup(None, black, false)
        case At(t) =>
          if now < t then Lookup(Some(TemporaryUntil(t)), black, false)
          else Lookup(None, black - {ip}, true)
      else Lookup(None, black, false)
  }

  /** Only the looked-up IP's record can disappear; every other record stays
      as it was. */
  lemma LookupFrame(black: Blacklist, ip: string, now: int, other: string)
    requires other != ip
    ensures other in IsIpBlocked(black, ip, now).black <==> other in black
    ensures other in black ==> IsIpBlocked(black, ip, now).black[other] == black[other]
  {
  }

  /** After an expired record has been deleted, asking again answers "not
      blocked" and changes nothing more. */
  lemma LookupAfterExpiry(black: Blacklist, ip: string, now: int, later: int)
    requires IsIpBlocked(black, ip, now).persisted
    ensures var again := IsIpBlocked(IsIpBlocked(black, ip, now).black, ip, later);
      again.status == None && again.black == IsIpBlocked(black, ip, now).black && !again.persisted
  {
  }

  /** A lookup at a later time never turns "not blocked" into "blocked"
      (no record is ever added by a lookup). */
  lemma LookupNeverBlocksLater(black: Blacklist, ip: string, now: int, later: int)
    requires now <= later && IsIpBlocked(black, ip, now).status == None
    ensures IsIpBlocked(black, ip, later).status == None
  {
  }
}
