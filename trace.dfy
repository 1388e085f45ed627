/** Successive requests by one user: the decisions taken for a sequence of
    request times, each one seeing what the previous ones stored. */
module QuotaTrace {
  import opened Wrappers
  import opened GoInt
  import opened Quota

  datatype Trace = Trace(decisions: seq<Decision>, final: Option<Doc>)

  /** Decide each request in turn, starting from the stored document `start`. */
  function Run(start: Option<Doc>, username: string, times: seq<Int64>): (t: Trace)
    ensures |t.decisions| == |times|
    ensures (forall k :: 0 <= k < |times| ==> t.decisions[k].Deny?) ==> t.final == start
    decreases |times|
  {
    if times == [] then Trace([], start)
    else
      var d := Decide(start, username, times[0]);
      var rest := Run(Stored(start, d), username, times[1..]);
      var t := Trace([d] + rest.decisions, rest.final);
      assert t.decisions[0] == d;
      assert forall k :: 0 <= k < |rest.decisions| ==> rest.decisions[k] == t.decisions[k + 1];
      t
  }

  /** Number of admissions among `ds`. */
  function Admissions(ds: seq<Decision>): (n: nat)
    ensures n <= |ds|
  {
    if ds == [] then 0 else (if ds[0].Admit? then 1 else 0) + Admissions(ds[1..])
  }

  function TotalIn(s: Option<Doc>): int {
    if s.Some? then TotalOf(s.value) else 0
  }

  /** Over any run, `totalCalls` grows by exactly the number of admissions,
      as long as it stays clear of `int64` overflow. */
  lemma {:induction false} TotalCallsCountAdmissions(start: Option<Doc>, username: string, times: seq<Int64>)
    requires TotalIn(start) + |times| <= MaxInt64
    ensures var t := Run(start, username, times);
      t.final.Some? ==> TotalIn(t.final) == TotalIn(start) + Admissions(t.decisions)
    ensures var t := Run(start, username, times);
      t.final.None? ==> start.None? && Admissions(t.decisions) == 0
    decreases |times|
  {
    if times != [] {
      var d := Decide(start, username, times[0]);
      var next := Stored(start, d);
      TotalCallsCountsAdmission(start, username, times[0]);
      TotalCallsCountAdmissions(next, username, times[1..]);
      var t := Run(start, username, times);
      assert t.decisions[1..] == Run(next, username, times[1..]).decisions;
    }
  }

  /** Over any run from a document within the quota, the stored minute
      counter never exceeds the quota. */
  lemma {:induction false} MinuteBoundAlongRun(start: Option<Doc>, username: string, times: seq<Int64>)
    requires start.Some? ==> MinuteOf(start.value) <= CallsPerMin
    ensures var t := Run(start, username, times);
      t.final.Some? ==> MinuteOf(t.final.value) <= CallsPerMin
    decreases |times|
  {
    if times != [] {
      var next := Stored(start, Decide(start, username, times[0]));
      MinuteBoundPreserved(start, username, times[0]);
      MinuteBoundAlongRun(next, username, times[1..]);
    }
  }

  /** Once the quota is used up in the window opened at `doc`'s start, every
      further request inside that window is denied with the seconds left,
      and the stored document stays as it is. */
  lemma {:induction false} DeniedUntilWindowEnds(doc: Doc, username: string, times: seq<Int64>)
    requires MinuteOf(doc) >= CallsPerMin
    requires forall k :: 0 <= k < |times| ==>
      LastAccessedOf(doc) <= times[k] < LastAccessedOf(doc) + WindowSeconds
    ensures var t := Run(Some(doc), username, times);
      && t.final == Some(doc)
      && forall k :: 0 <= k < |times| ==>
           t.decisions[k] == Deny(WindowSeconds - (times[k] - LastAccessedOf(doc)))
    decreases |times|
  {
    if times != [] {
      assert Elapsed(doc, times[0]) == times[0] - LastAccessedOf(doc);
      DeniedUntilWindowEnds(doc, username, times[1..]);
      var t := Run(Some(doc), username, times);
      var rest := Run(Some(doc), username, times[1..]);
      forall k | 1 <= k < |times|
        ensures t.decisions[k] == Deny(WindowSeconds - (times[k] - LastAccessedOf(doc)))
      {
        assert t.decisions[k] == rest.decisions[k - 1];
        assert times[1..][k - 1] == times[k];
      }
    }
  }

  /** A new user making several requests within 60 seconds of the first:
      the first two are admitted, every later one is denied with cooldown
      60 minus the seconds since the first, and the stored minute counter
      ends at the number admitted. */
  lemma {:induction false} BurstInOneWindow(username: string, times: seq<Int64>)
    requires |times| > 0
    requires forall k :: 0 <= k < |times| ==> times[0] <= times[k] < times[0] + WindowSeconds
    ensures var t := Run(None, username, times);
      && (forall k :: 0 <= k < |times| && k < CallsPerMin ==> t.decisions[k].Admit?)
      && (forall k :: CallsPerMin <= k < |times| ==>
            t.decisions[k] == Deny(WindowSeconds - (times[k] - times[0])))
      && t.final.Some?
      && MinuteOf(t.final.value) == (if |times| < CallsPerMin then |times| else CallsPerMin)
      && TotalOf(t.final.value) == MinuteOf(t.final.value)
      && LastAccessedOf(t.final.value) == times[0]
  {
    var t0 := times[0];
    var first := Record(username, 1, 1, t0);
    assert Decide(None, username, t0) == Admit(first);
    var t := Run(None, username, times);
    var t1 := Run(Some(ToDoc(first)), username, times[1..]);
    assert t.decisions == [Admit(first)] + t1.decisions && t.final == t1.final;
    if |times| > 1 {
      var doc1 := ToDoc(first);
      var ts1 := times[1..];
      assert Elapsed(doc1, ts1[0]) == ts1[0] - t0;
      var second := Record(username, 2, 2, t0);
      assert Decide(Some(doc1), username, ts1[0]) == Admit(second);
      var doc2 := ToDoc(second);
      var t2 := Run(Some(doc2), username, ts1[1..]);
      assert t1.decisions == [Admit(second)] + t2.decisions && t1.final == t2.final;
      DeniedUntilWindowEnds(doc2, username, ts1[1..]);
      forall k | CallsPerMin <= k < |times|
        ensures t.decisions[k] == Deny(WindowSeconds - (times[k] - t0))
      {
        assert t.decisions[k] == t2.decisions[k - 2];
        assert ts1[1..][k - 2] == times[k];
      }
    }
  }

  /** Requests at 0 and 10 are admitted, one at 30 is denied with 30 seconds
      to wait, and one at 61 opens a new window with a third admission. */
  lemma Scenario()
    ensures var t := Run(None, "user", [0, 10, 30, 61]);
      && t.decisions[0].Admit? && t.decisions[1].Admit?
      && t.decisions[1].written.minuteCalls == 2
      && t.decisions[2] == Deny(30)
      && t.decisions[3].Admit?
      && t.decisions[3].written.minuteCalls == 1
      && t.decisions[3].written.totalCalls == 3
      && t.decisions[3].written.lastAccessed == 61
  {
    var r0 := Record("user", 1, 1, 0);
    var r1 := Record("user", 2, 2, 0);
    var r3 := Record("user", 3, 1, 61);
    assert Decide(None, "user", 0) == Admit(r0);
    assert Decide(Some(ToDoc(r0)), "user", 10) == Admit(r1);
    assert Decide(Some(ToDoc(r1)), "user", 30) == Deny(30);
    assert Decide(Some(ToDoc(r1)), "user", 61) == Admit(r3);
    var t3 := Run(Some(ToDoc(r1)), "user", [61]);
    var t2 := Run(Some(ToDoc(r1)), "user", [30, 61]);
    assert t2.decisions == [Deny(30)] + t3.decisions;
    var t1 := Run(Some(ToDoc(r0)), "user", [10, 30, 61]);
    assert t1.decisions == [Admit(r1)] + t2.decisions;
    assert Run(None, "user", [0, 10, 30, 61]).decisions == [Admit(r0)] + t1.decisions;
  }
}
