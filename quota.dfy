/** The per-user admission decision of the quota tracker: given the user's
    stored document (if any) and the current Unix time, either admit the
    request and produce the record to write, or deny it with a cooldown. */
module Quota {
  import opened Wrappers
  import opened GoInt

  /** Admitted requests allowed per window. */
  const CallsPerMin: Int64 := 2

  /** Length of a window, in seconds. */
  const WindowSeconds: Int64 := 60

  /** A user's document as read back from the `users` collection. A field is
      `None` when it is missing or does not hold an `int64` (a string). */
  datatype Doc = Doc(
    username: Option<string>,
    totalCalls: Option<Int64>,
    minuteCalls: Option<Int64>,
    lastAccessed: Option<Int64>)

  /** The record written for an admitted request: every field present. */
  datatype Record = Record(
    username: string,
    totalCalls: Int64,
    minuteCalls: Int64,
    lastAccessed: Int64)

  /** What the tracker decides for one request. */
  datatype Decision = Admit(written: Record) | Deny(cooldown: Int64)

  /** A field read with a failed type assertion yields Go's zero value. */
  function ReadInt64(field: Option<Int64>): Int64 {
    field.GetOr(0)
  }

  function TotalOf(doc: Doc): Int64 { ReadInt64(doc.totalCalls) }
  function MinuteOf(doc: Doc): Int64 { ReadInt64(doc.minuteCalls) }
  function LastAccessedOf(doc: Doc): Int64 { ReadInt64(doc.lastAccessed) }

  /** The document that writing `r` stores: reading it back gives `r` again. */
  function ToDoc(r: Record): (d: Doc)
    ensures d.username == Some(r.username)
    ensures TotalOf(d) == r.totalCalls
    ensures MinuteOf(d) == r.minuteCalls
    ensures LastAccessedOf(d) == r.lastAccessed
  {
    Doc(Some(r.username), Some(r.totalCalls), Some(r.minuteCalls), Some(r.lastAccessed))
  }

  /** Seconds since the window of `doc` opened, as an `int64` subtraction. */
  function Elapsed(doc: Doc, now: Int64): Int64 {
    Wrap64(now - LastAccessedOf(doc))
  }

  predicate InWindow(doc: Doc, now: Int64) {
    Elapsed(doc, now) < WindowSeconds
  }

  /** The admission decision for a request at time `now` by a user whose
      stored document is `prev` (`None` when the user has none). */
  function Decide(prev: Option<Doc>, username: string, now: Int64): (d: Decision)
    ensures d.Admit? ==> d.written.username == username
    ensures d.Admit? ==> d.written.minuteCalls <= CallsPerMin
    ensures d.Deny? <==> prev.Some? && InWindow(prev.value, now) && MinuteOf(prev.value) >= CallsPerMin
  {
    match prev
    case None => Admit(Record(username, 1, 1, now))
    case Some(doc) =>
      var elapsed := Elapsed(doc, now);
      if elapsed < WindowSeconds then
        if MinuteOf(doc) >= CallsPerMin then
          Deny(Wrap64(WindowSeconds - elapsed))
        else
          Admit(Record(username, Wrap64(TotalOf(doc) + 1), Wrap64(MinuteOf(doc) + 1), LastAccessedOf(doc)))
      else
        Admit(Record(username, Wrap64(TotalOf(doc) + 1), 1, now))
  }

  /** What the user's slot in the store holds after the decision: the written
      record on admission, the untouched previous document on denial. */
  function Stored(prev: Option<Doc>, d: Decision): (s: Option<Doc>)
    ensures d.Deny? ==> s == prev
    ensures d.Admit? ==> s == Some(ToDoc(d.written))
  {
    match d
    case Admit(r) => Some(ToDoc(r))
    case Deny(_) => prev
  }

  /** A user with no document is admitted with both counters at 1 and the
      window opening now. */
  lemma NewUserAdmitted(username: string, now: Int64)
    ensures Decide(None, username, now) == Admit(Record(username, 1, 1, now))
  {
  }

  /** Inside the window with the quota used up, the request is denied with
      the seconds left in the window, and nothing is written. */
  lemma QuotaReachedDenied(doc: Doc, username: string, now: Int64)
    requires InWindow(doc, now) && MinuteOf(doc) >= CallsPerMin
    ensures Decide(Some(doc), username, now) == Deny(Wrap64(WindowSeconds - Elapsed(doc, now)))
    ensures Stored(Some(doc), Decide(Some(doc), username, now)) == Some(doc)
  {
  }

  /** Inside the window below the quota, both counters go up by one and the
      window start is kept. */
  lemma BelowQuotaAdmitted(doc: Doc, username: string, now: Int64)
    requires InWindow(doc, now) && MinuteOf(doc) < CallsPerMin
    ensures var d := Decide(Some(doc), username, now);
      && d.Admit?
      && d.written.minuteCalls == MinuteOf(doc) + 1
      && d.written.totalCalls == Wrap64(TotalOf(doc) + 1)
      && (TotalOf(doc) < MaxInt64 ==> d.written.totalCalls == TotalOf(doc) + 1)
      && d.written.lastAccessed == LastAccessedOf(doc)
  {
  }

  /** Once the window has run out, a new one opens now with one call in it. */
  lemma WindowExpiredAdmitted(doc: Doc, username: string, now: Int64)
    requires !InWindow(doc, now)
    ensures var d := Decide(Some(doc), username, now);
      && d.Admit?
      && d.written.minuteCalls == 1
      && d.written.totalCalls == Wrap64(TotalOf(doc) + 1)
      && (TotalOf(doc) < MaxInt64 ==> d.written.totalCalls == TotalOf(doc) + 1)
      && d.written.lastAccessed == now
  {
  }

  /** The window start moves only when a window opens: an admission either
      keeps the stored start (inside the window) or sets it to now. */
  lemma WindowStartMovesOnlyOnNewWindow(prev: Option<Doc>, username: string, now: Int64)
    ensures var d := Decide(prev, username, now);
      d.Admit? && d.written.lastAccessed != now ==>
        prev.Some? && InWindow(prev.value, now) && d.written.lastAccessed == LastAccessedOf(prev.value)
  {
  }

  /** When the elapsed time is representable and not negative, a denial asks
      the user to wait between 1 and 60 seconds. */
  lemma CooldownInRange(doc: Doc, username: string, now: Int64)
    requires LastAccessedOf(doc) <= now && InRange64(now - LastAccessedOf(doc))
    requires Decide(Some(doc), username, now).Deny?
    ensures 1 <= Decide(Some(doc), username, now).cooldown <= WindowSeconds
  {
  }

  /** A stored window start so far in the past that the `int64` subtraction
      wraps makes the window look open, and the cooldown far exceeds 60. */
  lemma CooldownWhenElapsedWraps(username: string, now: Int64)
    requires now >= 61
    ensures var doc := Doc(None, None, Some(2), Some(MinInt64 as Int64));
      Decide(Some(doc), username, now).Deny? &&
      Decide(Some(doc), username, now).cooldown > WindowSeconds
  {
  }

  /** A document without `lastAccessed` reads as a window opened at time 0,
      so at any time from 60 on the request opens a new window. */
  lemma MissingLastAccessedIsExpired(doc: Doc, username: string, now: Int64)
    requires doc.lastAccessed.None? && now >= WindowSeconds
    ensures var d := Decide(Some(doc), username, now);
      d.Admit? && d.written.minuteCalls == 1 && d.written.lastAccessed == now
  {
  }

  /** Missing counters read as 0 and restart from there: the request is
      admitted and both counters are written as 1. */
  lemma MissingCountersStartFromZero(doc: Doc, username: string, now: Int64)
    requires doc.totalCalls.None? && doc.minuteCalls.None?
    ensures var d := Decide(Some(doc), username, now);
      d.Admit? && d.written.totalCalls == 1 && d.written.minuteCalls == 1
  {
  }

  /** If the stored minute counter is within the quota, it still is after
      any request, admitted or denied. */
  lemma MinuteBoundPreserved(prev: Option<Doc>, username: string, now: Int64)
    requires prev.Some? ==> MinuteOf(prev.value) <= CallsPerMin
    ensures var s := Stored(prev, Decide(prev, username, now));
      s.Some? ==> MinuteOf(s.value) <= CallsPerMin
  {
  }

  /** `totalCalls` goes up by exactly one on admission (barring `int64`
      overflow) and is untouched by a denial. */
  lemma TotalCallsCountsAdmission(prev: Option<Doc>, username: string, now: Int64)
    requires prev.Some? ==> TotalOf(prev.value) < MaxInt64
    ensures var d := Decide(prev, username, now);
      var before := if prev.Some? then TotalOf(prev.value) else 0;
      var s := Stored(prev, d);
      && s.Some? == (prev.Some? || d.Admit?)
      && (s.Some? ==> TotalOf(s.value) == before + (if d.Admit? then 1 else 0))
  {
  }
}
