/** The `users` collection and the request check `userAccess` runs against
    it: read the caller's document, decide, and on admission overwrite that
    one document with the new counters. */
module UserStore {
  import opened Wrappers
  import opened GoInt
  import opened Quota

  /** What the request check reports: admitted (no error), too many
      requests with a cooldown in seconds, or a failed read of the store. */
  datatype Outcome = Admitted | TooManyRequests(cooldown: Int64) | Failed

  /** The outcome reported for a decision. */
  function OutcomeOf(d: Decision): (o: Outcome)
    ensures o.Admitted? <==> d.Admit?
    ensures d.Deny? ==> o == TooManyRequests(d.cooldown)
  {
    match d
    case Admit(_) => Admitted
    case Deny(c) => TooManyRequests(c)
  }

  class QuotaStore {
    /** One document per user ID. */
    var users: map<string, Doc>

    constructor (initial: map<string, Doc>)
      ensures users == initial
    {
      users := initial;
    }

    /** The document stored under `userID`, if there is one. */
    function Lookup(userID: string): Option<Doc>
      reads this
    {
      if userID in users then Some(users[userID]) else None
    }

    /** Every stored minute counter is within the quota. */
    ghost predicate WithinQuota()
      reads this
    {
      forall u :: u in users ==> MinuteOf(users[u]) <= CallsPerMin
    }

    /** Read the document of `userID`: present exactly when one is stored. */
    method Get(userID: string) returns (snap: Option<Doc>)
      ensures snap == Lookup(userID)
    {
      if userID in users {
        snap := Some(users[userID]);
      } else {
        snap := None;
      }
    }

    /** Check a request by `userID` at Unix time `now`. `getOk` is false when
        the store could not be read; the request then fails and nothing is
        written. Otherwise the outcome is the one `Decide` takes on the
        stored document, and only an admission writes, to `userID`'s
        document alone. */
    method Admit(userID: string, username: string, now: Int64, getOk: bool) returns (o: Outcome)
      modifies this
      ensures !getOk ==> o == Failed
      ensures getOk ==> o == OutcomeOf(Decide(old(Lookup(userID)), username, now))
      ensures o.Admitted? ==>
        users == old(users)[userID := ToDoc(Decide(old(Lookup(userID)), username, now).written)]
      ensures !o.Admitted? ==> users == old(users)
      ensures o.Admitted? ==> users[userID].username == Some(username)
      ensures forall u :: u != userID ==> Lookup(u) == old(Lookup(u))
      ensures old(WithinQuota()) ==> WithinQuota()
      ensures getOk ==>
        Lookup(userID) == Stored(old(Lookup(userID)), Decide(old(Lookup(userID)), username, now))
    {
      var snap := Get(userID);
      var totalCalls: Int64 := 1;
      var minuteCalls: Int64 := 1;
      var lastAccessed: Int64 := now;
      if !getOk {
        return Failed;
      }
      if snap.Some? {
        var doc := snap.value;
        totalCalls := ReadInt64(doc.totalCalls);
        minuteCalls := ReadInt64(doc.minuteCalls);
        var storedLastAccessed := ReadInt64(doc.lastAccessed);
        var timeElapsed := Wrap64(lastAccessed - storedLastAccessed);
        if timeElapsed < WindowSeconds {
          if minuteCalls >= CallsPerMin {
            return TooManyRequests(Wrap64(WindowSeconds - timeElapsed));
          } else {
            lastAccessed := storedLastAccessed;
            totalCalls := Wrap64(totalCalls + 1);
            minuteCalls := Wrap64(minuteCalls + 1);
          }
        } else {
          minuteCalls := 1;
          totalCalls := Wrap64(totalCalls + 1);
        }
      }
      users := users[userID := Doc(Some(username), Some(totalCalls), Some(minuteCalls), Some(lastAccessed))];
      return Admitted;
    }
  }
}
