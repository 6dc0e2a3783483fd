/** The sliding-window limiter of `backend/app/middleware/rate_limit.py`.

    The class keeps, per key, a list of time stamps that is pruned and appended
    to. A run is judged against the log of everything ever admitted. The clock
    is read before the lock is taken, so readings may reach the lock out of
    order: `skew` bounds how far a reading may lie behind an earlier one. */
module RateLimit {

  type Time = real

  /** The time stamps later than `cutoff`, in order. */
  function Later(stamps: seq<Time>, cutoff: Time): seq<Time> {
    if stamps == [] then []
    else (if stamps[0] > cutoff then [stamps[0]] else []) + Later(stamps[1..], cutoff)
  }

  datatype Config = Config(maxRequests: int, window: Time)

  type Table = map<string, seq<Time>>

  function Entries(t: Table, key: string): seq<Time> {
    if key in t then t[key] else []
  }

  /** A call that has the lock: `is_allowed` or `remaining`, with the reading it
      took beforehand. */
  datatype Call = IsAllowed(key: string, now: Time) | Remaining(key: string, now: Time)

  function Clean(c: Config, t: Table, key: string, now: Time): Table {
    t[key := Later(Entries(t, key), now - c.window)]
  }

  predicate Admits(c: Config, t: Table, call: Call) {
    call.IsAllowed? && |Later(Entries(t, call.key), call.now - c.window)| < c.maxRequests
  }

  function Serve(c: Config, t: Table, call: Call): Table {
    var t' := Clean(c, t, call.key, call.now);
    if Admits(c, t, call) then t'[call.key := t'[call.key] + [call.now]] else t'
  }

  /** The limiter as written, against `Serve`. */
  class RateLimiter {
    const maxRequests: int
    const windowSeconds: Time
    var requests: Table

    constructor (maxRequests: int, windowSeconds: Time)
      ensures this.maxRequests == maxRequests && this.windowSeconds == windowSeconds && requests == map[]
    {
      this.maxRequests, this.windowSeconds, requests := maxRequests, windowSeconds, map[];
    }

    function Settings(): Config {
      Config(maxRequests, windowSeconds)
    }

    method CleanOldEntries(key: string, now: Time)
      modifies this
      ensures requests == Clean(Settings(), old(requests), key, now)
    {
      var cutoff := now - windowSeconds;
      var kept: seq<Time> := [];
      var all := if key in requests then requests[key] else [];
      for i := 0 to |all|
        invariant requests == old(requests)
        invariant kept == Later(all[..i], cutoff)
      {
        assert all[..i + 1] == all[..i] + [all[i]];
        LaterAppend(all[..i], [all[i]], cutoff);
        assert Later([all[i]], cutoff) == if all[i] > cutoff then [all[i]] else [];
        if all[i] > cutoff {
          kept := kept + [all[i]];
        }
      }
      assert all[..|all|] == all;
      requests := requests[key := kept];
    }

    method IsAllowed(key: string, now: Time) returns (allowed: bool)
      modifies this
      ensures allowed == Admits(Settings(), old(requests), Call.IsAllowed(key, now))
      ensures requests == Serve(Settings(), old(requests), Call.IsAllowed(key, now))
    {
      CleanOldEntries(key, now);
      if |requests[key]| >= maxRequests {
        return false;
      }
      requests := requests[key := requests[key] + [now]];
      return true;
    }

    method Remaining(key: string, now: Time) returns (left: int)
      modifies this
      ensures requests == Serve(Settings(), old(requests), Call.Remaining(key, now))
      ensures left >= 0
      ensures left > 0 <==> Admits(Settings(), old(requests), Call.IsAllowed(key, now))
      ensures left > 0 ==> left + |Entries(requests, key)| == maxRequests
    {
      CleanOldEntries(key, now);
      left := if maxRequests - |requests[key]| > 0 then maxRequests - |requests[key]| else 0;
    }
  }

  /** The list of a key after a call. */
  lemma EntriesAfter(c: Config, t: Table, call: Call, key: string)
    ensures Entries(Serve(c, t, call), key)
      == if call.key != key then Entries(t, key)
         else Later(Entries(t, key), call.now - c.window) + Granted(c, t, call)
  {
  }

  function Granted(c: Config, t: Table, call: Call): seq<Time> {
    if Admits(c, t, call) then [call.now] else []
  }

  lemma {:induction false} LaterAppend(a: seq<Time>, b: seq<Time>, cutoff: Time)
    ensures Later(a + b, cutoff) == Later(a, cutoff) + Later(b, cutoff)
  {
    if a == [] {
      assert a + b == b;
    } else {
      assert (a + b)[1..] == a[1..] + b;
      LaterAppend(a[1..], b, cutoff);
    }
  }

  /** Pruning twice is pruning once, at the later cutoff. */
  lemma {:induction false} LaterLater(a: seq<Time>, early: Time, late: Time)
    requires early <= late
    ensures Later(Later(a, early), late) == Later(a, late)
    ensures Later(Later(a, late), early) == Later(a, late)
  {
    if a != [] {
      var rest := a[1..];
      LaterLater(rest, early, late);
      var head := [a[0]];
      assert Later(head, late) == if a[0] > late then head else [];
      assert Later(head, early) == if a[0] > early then head else [];
      LaterAppend(if a[0] > early then head else [], Later(rest, early), late);
      LaterAppend(if a[0] > late then head else [], Later(rest, late), early);
    }
  }

  lemma {:induction false} LaterMembers(a: seq<Time>, cutoff: Time)
    ensures forall x :: x in Later(a, cutoff) <==> x in a && x > cutoff
  {
    if a != [] {
      LaterMembers(a[1..], cutoff);
    }
  }

  // ---------------------------------------------------------------------- runs

  function TableAfter(c: Config, calls: seq<Call>): Table {
    if calls == [] then map[]
    else Serve(c, TableAfter(c, calls[..|calls| - 1]), calls[|calls| - 1])
  }

  /** Everything ever admitted for a key, in the order the lock was held. */
  function Log(c: Config, calls: seq<Call>, key: string): seq<Time> {
    if calls == [] then []
    else
      var front, last := calls[..|calls| - 1], calls[|calls| - 1];
      Log(c, front, key) + if last.key == key then Granted(c, TableAfter(c, front), last) else []
  }

  lemma LogStep(c: Config, calls: seq<Call>, key: string)
    requires calls != []
    ensures var front, last := calls[..|calls| - 1], calls[|calls| - 1];
      var granted := last.key == key && Admits(c, TableAfter(c, front), last);
      Log(c, calls, key) == if granted then Log(c, front, key) + [last.now] else Log(c, front, key)
  {
  }

  /** No reading lies more than `skew` behind an earlier one. With no skew the
      readings never decrease. */
  predicate SkewAtMost(calls: seq<Call>, skew: Time) {
    forall i, j :: 0 <= i < j < |calls| ==> calls[j].now >= calls[i].now - skew
  }

  /** `reading` is at least every reading taken for the key so far. */
  predicate Covers(calls: seq<Call>, key: string, reading: Time) {
    forall i :: 0 <= i < |calls| && calls[i].key == key ==> calls[i].now <= reading
  }

  /** The pruned list agrees with the full log above any cutoff that no reading so
      far could have pruned past. */
  lemma {:induction false} ListAgreesWithLog(c: Config, calls: seq<Call>, key: string, reading: Time, cutoff: Time)
    requires Covers(calls, key, reading) && cutoff >= reading - c.window
    ensures Later(Entries(TableAfter(c, calls), key), cutoff) == Later(Log(c, calls, key), cutoff)
  {
    if calls != [] {
      var front, last := calls[..|calls| - 1], calls[|calls| - 1];
      assert Covers(front, key, reading);
      ListAgreesWithLog(c, front, key, reading, cutoff);
      AgreementKept(c, TableAfter(c, front), Log(c, front, key), last, key, cutoff);
    }
  }

  lemma AgreementKept(c: Config, t: Table, log: seq<Time>, call: Call, key: string, cutoff: Time)
    requires Later(Entries(t, key), cutoff) == Later(log, cutoff)
    requires call.key == key ==> cutoff >= call.now - c.window
    ensures Later(Entries(Serve(c, t, call), key), cutoff)
      == Later(log + (if call.key == key then Granted(c, t, call) else []), cutoff)
  {
    EntriesAfter(c, t, call, key);
    if call.key == key {
      LaterLater(Entries(t, key), call.now - c.window, cutoff);
      LaterAppend(Later(Entries(t, key), call.now - c.window), Granted(c, t, call), cutoff);
      LaterAppend(log, Granted(c, t, call), cutoff);
    } else {
      assert log + [] == log;
    }
  }

  /** Right after a call whose reading no earlier one of its key exceeds, the
      key's list is exactly the admissions of the window that ends at the call. */
  lemma ListIsTheWindow(c: Config, front: seq<Call>, last: Call)
    requires Covers(front, last.key, last.now) && c.window > 0.0
    ensures Entries(TableAfter(c, front + [last]), last.key)
      == Later(Log(c, front + [last], last.key), last.now - c.window)
  {
    var calls := front + [last];
    assert calls[..|calls| - 1] == front;
    assert Covers(calls, last.key, last.now);
    ListAgreesWithLog(c, calls, last.key, last.now, last.now - c.window);
    WindowAfter(c, calls, TableAfter(c, front), last);
  }

  lemma WindowAfter(c: Config, calls: seq<Call>, t: Table, call: Call)
    requires c.window > 0.0 && TableAfter(c, calls) == Serve(c, t, call)
    ensures Later(Entries(TableAfter(c, calls), call.key), call.now - c.window)
      == Entries(TableAfter(c, calls), call.key)
  {
    NothingLeftToPrune(c, t, call);
  }

  lemma NothingLeftToPrune(c: Config, t: Table, call: Call)
    requires c.window > 0.0
    ensures Later(Entries(Serve(c, t, call), call.key), call.now - c.window) == Entries(Serve(c, t, call), call.key)
  {
    var cutoff := call.now - c.window;
    EntriesAfter(c, t, call, call.key);
    LaterAppend(Later(Entries(t, call.key), cutoff), Granted(c, t, call), cutoff);
    LaterLater(Entries(t, call.key), cutoff, cutoff);
    assert Later([call.now], cutoff) == [call.now];
  }

  // ----------------------------------------------------------------- the bound

  /** Admissions in the half-open interval (from, upTo]. */
  function Within(stamps: seq<Time>, from: Time, upTo: Time): seq<Time> {
    if stamps == [] then []
    else (if from < stamps[0] <= upTo then [stamps[0]] else []) + Within(stamps[1..], from, upTo)
  }

  lemma {:induction false} WithinAppend(a: seq<Time>, b: seq<Time>, from: Time, upTo: Time)
    ensures Within(a + b, from, upTo) == Within(a, from, upTo) + Within(b, from, upTo)
  {
    if a == [] {
      assert a + b == b;
    } else {
      assert (a + b)[1..] == a[1..] + b;
      WithinAppend(a[1..], b, from, upTo);
    }
  }

  lemma {:induction false} WithinIsLater(a: seq<Time>, from: Time, upTo: Time, cutoff: Time)
    requires cutoff <= from
    ensures |Within(a, from, upTo)| <= |Later(a, cutoff)|
  {
    if a != [] {
      WithinIsLater(a[1..], from, upTo, cutoff);
    }
  }

  /** The limit, with skew. If readings reach the lock out of order by at most
      `skew`, then for every key and every moment `t`, at most `maxRequests`
      admissions carry stamps in (t - (window - skew), t]. */
  lemma {:induction false} NeverMoreThanTheLimit(c: Config, calls: seq<Call>, skew: Time, key: string, t: Time)
    requires SkewAtMost(calls, skew) && skew >= 0.0
    ensures |Within(Log(c, calls, key), t - (c.window - skew), t)| <= if c.maxRequests > 0 then c.maxRequests else 0
  {
    if calls != [] {
      var front, last := calls[..|calls| - 1], calls[|calls| - 1];
      NeverMoreThanTheLimit(c, front, skew, key, t);
      LogStep(c, calls, key);
      if last.key == key && Admits(c, TableAfter(c, front), last) {
        OneMoreFits(c, front, skew, last, t);
      }
    }
  }

  lemma OneMoreFits(c: Config, front: seq<Call>, skew: Time, last: Call, t: Time)
    requires forall i :: 0 <= i < |front| ==> front[i].now <= last.now + skew
    requires skew >= 0.0 && Admits(c, TableAfter(c, front), last)
    requires |Within(Log(c, front, last.key), t - (c.window - skew), t)|
      <= if c.maxRequests > 0 then c.maxRequests else 0
    ensures |Within(Log(c, front, last.key) + [last.now], t - (c.window - skew), t)| <= c.maxRequests
  {
    var from := t - (c.window - skew);
    WithinAppend(Log(c, front, last.key), [last.now], from, t);
    assert [last.now][1..] == [];
    if from < last.now <= t {
      RoomForOneMore(c, front, skew, last, from, t);
    }
  }

  /** Nothing later than now - (window - skew) can have been pruned before a call,
      so what it counts includes every admission of the shorter window. */
  lemma RoomForOneMore(c: Config, calls: seq<Call>, skew: Time, call: Call, from: Time, upTo: Time)
    requires skew >= 0.0 && Covers(calls, call.key, call.now + skew)
    requires Admits(c, TableAfter(c, calls), call) && call.now - (c.window - skew) <= from
    ensures |Within(Log(c, calls, call.key), from, upTo)| < c.maxRequests
  {
    var cutoff := call.now - (c.window - skew);
    ListAgreesWithLog(c, calls, call.key, call.now + skew, cutoff);
    CountsAreBounded(Entries(TableAfter(c, calls), call.key), Log(c, calls, call.key), call.now - c.window, cutoff,
                     from, upTo);
  }

  lemma CountsAreBounded(list: seq<Time>, log: seq<Time>, early: Time, cutoff: Time, from: Time, upTo: Time)
    requires Later(list, cutoff) == Later(log, cutoff) && early <= cutoff <= from
    ensures |Within(log, from, upTo)| <= |Later(list, early)|
  {
    LaterLater(list, early, cutoff);
    FewerAreLater(Later(list, early), cutoff);
    WithinIsLater(log, from, upTo, cutoff);
  }

  lemma {:induction false} FewerAreLater(a: seq<Time>, cutoff: Time)
    ensures |Later(a, cutoff)| <= |a|
  {
    if a != [] {
      FewerAreLater(a[1..], cutoff);
    }
  }

  /** The limit as documented: with an orderly clock, every window of the full
      length holds at most `maxRequests` admissions of a key, wherever it ends. */
  lemma NeverMoreThanTheLimitInAnyWindow(c: Config, calls: seq<Call>, key: string, t: Time)
    requires SkewAtMost(calls, 0.0)
    ensures |Within(Log(c, calls, key), t - c.window, t)| <= if c.maxRequests > 0 then c.maxRequests else 0
  {
    NeverMoreThanTheLimit(c, calls, 0.0, key, t);
  }

  predicate AllUpTo(a: seq<Time>, upTo: Time) {
    forall i :: 0 <= i < |a| ==> a[i] <= upTo
  }

  lemma {:induction false} AdmittedByNow(c: Config, calls: seq<Call>, key: string, now: Time)
    requires Covers(calls, key, now)
    ensures AllUpTo(Log(c, calls, key), now)
  {
    if calls != [] {
      var front, last := calls[..|calls| - 1], calls[|calls| - 1];
      assert Covers(front, key, now);
      AdmittedByNow(c, front, key, now);
    }
  }

  lemma {:induction false} AllWithin(a: seq<Time>, from: Time, upTo: Time)
    requires AllUpTo(a, upTo)
    ensures Within(a, from, upTo) == Later(a, from)
  {
    if a != [] {
      assert a[0] <= upTo && AllUpTo(a[1..], upTo);
      AllWithin(a[1..], from, upTo);
    }
  }

  /** A call is refused if and only if the window that ends with it is already
      full: the limiter never turns anyone away early. */
  lemma RefusedOnlyWhenFull(c: Config, calls: seq<Call>, key: string, now: Time)
    requires Covers(calls, key, now)
    ensures Admits(c, TableAfter(c, calls), IsAllowed(key, now))
      <==> |Within(Log(c, calls, key), now - c.window, now)| < c.maxRequests
  {
    ListAgreesWithLog(c, calls, key, now, now - c.window);
    AdmittedByNow(c, calls, key, now);
    AdmitsByLog(c, TableAfter(c, calls), Log(c, calls, key), key, now);
  }

  lemma AdmitsByLog(c: Config, t: Table, log: seq<Time>, key: string, now: Time)
    requires Later(Entries(t, key), now - c.window) == Later(log, now - c.window) && AllUpTo(log, now)
    ensures Admits(c, t, IsAllowed(key, now)) <==> |Within(log, now - c.window, now)| < c.maxRequests
  {
    AllWithin(log, now - c.window, now);
  }

  // --------------------------------------------------------- keys are independent

  function OnlyKey(calls: seq<Call>, key: string): seq<Call> {
    if calls == [] then []
    else OnlyKey(calls[..|calls| - 1], key) + if calls[|calls| - 1].key == key then [calls[|calls| - 1]] else []
  }

  /** What one key is granted depends on nobody else's calls. */
  lemma {:induction false} KeysAreIndependent(c: Config, calls: seq<Call>, key: string)
    ensures Entries(TableAfter(c, calls), key) == Entries(TableAfter(c, OnlyKey(calls, key)), key)
    ensures Log(c, calls, key) == Log(c, OnlyKey(calls, key), key)
  {
    if calls != [] {
      var front, last := calls[..|calls| - 1], calls[|calls| - 1];
      KeysAreIndependent(c, front, key);
      EntriesAfter(c, TableAfter(c, front), last, key);
      LogStep(c, calls, key);
      if last.key != key {
        assert OnlyKey(calls, key) == OnlyKey(front, key);
      } else {
        var mine := OnlyKey(calls, key);
        assert mine[..|mine| - 1] == OnlyKey(front, key);
        EntriesAfter(c, TableAfter(c, OnlyKey(front, key)), last, key);
        assert TableAfter(c, mine) == Serve(c, TableAfter(c, OnlyKey(front, key)), last);
        LogStep(c, mine, key);
      }
    }
  }

  // ------------------------------------------------ exactly which windows are safe

  /** Over every run with that skew, every window of length `len`, wherever it ends,
      holds at most `maxRequests` admissions of a key. */
  ghost predicate Limits(c: Config, skew: Time, len: Time) {
    forall calls, key, t :: SkewAtMost(calls, skew) ==> HoldsAtMost(c, calls, key, len, t)
  }

  predicate HoldsAtMost(c: Config, calls: seq<Call>, key: string, len: Time, t: Time) {
    |Within(Log(c, calls, key), t - len, t)| <= c.maxRequests
  }

  predicate AdmissionsOnly(calls: seq<Call>) {
    forall i :: 0 <= i < |calls| ==> calls[i].IsAllowed?
  }

  /** The same over the runs that never ask what remains. */
  ghost predicate LimitsAdmissions(c: Config, skew: Time, len: Time) {
    forall calls, key, t :: SkewAtMost(calls, skew) && AdmissionsOnly(calls) ==> HoldsAtMost(c, calls, key, len, t)
  }

  function Sooner(a: Time, b: Time): Time {
    if a < b then a else b
  }

  lemma {:induction false} NarrowerHoldsLess(a: seq<Time>, from: Time, wider: Time, upTo: Time)
    requires wider <= from
    ensures |Within(a, from, upTo)| <= |Within(a, wider, upTo)|
  {
    if a != [] {
      NarrowerHoldsLess(a[1..], from, wider, upTo);
    }
  }

  lemma {:induction false} NothingInNoTime(a: seq<Time>, from: Time, upTo: Time)
    requires upTo <= from
    ensures Within(a, from, upTo) == []
  {
    if a != [] {
      NothingInNoTime(a[1..], from, upTo);
    }
  }

  lemma ShortWindowsAreSafe(c: Config, skew: Time, len: Time, calls: seq<Call>, key: string, t: Time)
    requires c.maxRequests >= 1 && skew >= 0.0 && len <= c.window - Sooner(skew, c.window) && SkewAtMost(calls, skew)
    ensures HoldsAtMost(c, calls, key, len, t)
  {
    if len <= 0.0 {
      NothingInNoTime(Log(c, calls, key), t - len, t);
    } else {
      NeverMoreThanTheLimit(c, calls, skew, key, t);
      NarrowerHoldsLess(Log(c, calls, key), t - len, t - (c.window - skew), t);
    }
  }

  function Copies(t: Time, n: nat): seq<Time> {
    if n == 0 then [] else Copies(t, n - 1) + [t]
  }

  lemma {:induction false} CopiesWithin(t: Time, n: nat, from: Time, upTo: Time)
    requires from < t <= upTo
    ensures |Within(Copies(t, n), from, upTo)| == n
  {
    if n > 0 {
      CopiesWithin(t, n - 1, from, upTo);
      WithinAppend(Copies(t, n - 1), [t], from, upTo);
      assert [t][1..] == [];
    }
  }

  lemma {:induction false} CopiesLater(t: Time, n: nat, cutoff: Time)
    ensures |Copies(t, n)| == n
    ensures Later(Copies(t, n), cutoff) == if t > cutoff then Copies(t, n) else []
  {
    if n > 0 {
      CopiesLater(t, n - 1, cutoff);
      LaterAppend(Copies(t, n - 1), [t], cutoff);
      assert [t][1..] == [];
    }
  }

  /** So many calls at one moment. */
  function Burst(key: string, at: Time, n: nat): (calls: seq<Call>)
    ensures |calls| == n && forall i :: 0 <= i < n ==> calls[i] == IsAllowed(key, at)
  {
    seq(n, i => IsAllowed(key, at))
  }

  /** One key's list and log, on their own. */
  datatype Journal = Journal(list: seq<Time>, log: seq<Time>)

  function Note(c: Config, j: Journal, call: Call): Journal {
    var kept := Later(j.list, call.now - c.window);
    if call.IsAllowed? && |kept| < c.maxRequests then Journal(kept + [call.now], j.log + [call.now])
    else Journal(kept, j.log)
  }

  function Play(c: Config, calls: seq<Call>): Journal {
    if calls == [] then Journal([], []) else Note(c, Play(c, calls[..|calls| - 1]), calls[|calls| - 1])
  }

  lemma {:induction false} JournalOfARun(c: Config, calls: seq<Call>, key: string)
    requires forall i :: 0 <= i < |calls| ==> calls[i].key == key
    ensures Play(c, calls) == Journal(Entries(TableAfter(c, calls), key), Log(c, calls, key))
  {
    if calls != [] {
      var front, last := calls[..|calls| - 1], calls[|calls| - 1];
      JournalOfARun(c, front, key);
      EntriesAfter(c, TableAfter(c, front), last, key);
      LogStep(c, calls, key);
    }
  }

  lemma {:induction false} BurstIsGranted(c: Config, at: Time, calls: seq<Call>)
    requires c.window > 0.0 && |calls| <= c.maxRequests
    requires forall i :: 0 <= i < |calls| ==> calls[i].IsAllowed? && calls[i].now == at
    ensures Play(c, calls) == Journal(Copies(at, |calls|), Copies(at, |calls|))
  {
    if calls != [] {
      BurstIsGranted(c, at, calls[..|calls| - 1]);
      CopiesLater(at, |calls| - 1, at - c.window);
    }
  }

  /** A burst that fills the window, a call one window later, and one whose reading
      was taken `skew` before that. */
  function LateRun(c: Config, key: string, between: Call, skew: Time): (run: seq<Call>)
    requires c.maxRequests >= 0
    ensures |run| == c.maxRequests + 2
    ensures forall i :: 0 <= i < c.maxRequests ==> run[i] == IsAllowed(key, c.window)
    ensures run[c.maxRequests] == between && run[c.maxRequests + 1] == IsAllowed(key, 2.0 * c.window - skew)
  {
    Burst(key, c.window, c.maxRequests) + [between] + [IsAllowed(key, 2.0 * c.window - skew)]
  }

  lemma LateRunIsSkewed(c: Config, key: string, between: Call, skew: Time)
    requires c.maxRequests >= 0 && 0.0 <= skew <= c.window && between.now == 2.0 * c.window
    ensures SkewAtMost(LateRun(c, key, between, skew), skew)
    ensures between.IsAllowed? ==> AdmissionsOnly(LateRun(c, key, between, skew))
  {
  }

  /** With skew, windows longer than the shortened one overfill. If the call between
      is an admission too, the limit must be two at least for that. */
  lemma SkewOverfills(c: Config, key: string, between: Call, skew: Time, len: Time)
    requires c.maxRequests >= 1 && 0.0 <= skew <= c.window && c.window > 0.0 && len > c.window - skew
    requires between.key == key && between.now == 2.0 * c.window && (between.IsAllowed? ==> c.maxRequests >= 2)
    ensures var t := 2.0 * c.window - skew;
      |Within(Log(c, LateRun(c, key, between, skew), key), t - len, t)| > c.maxRequests
  {
    var t, run := 2.0 * c.window - skew, LateRun(c, key, between, skew);
    var one := if between.IsAllowed? then [between.now] else [];
    JournalOfARun(c, run, key);
    LateLog(c, run, one);
    OverfullLog(c.window, c.maxRequests, one, t, t - len);
  }

  lemma LateLog(c: Config, run: seq<Call>, one: seq<Time>)
    requires c.maxRequests >= 1 && c.window > 0.0 && |run| == c.maxRequests + 2
    requires forall i :: 0 <= i < c.maxRequests ==> run[i].IsAllowed? && run[i].now == c.window
    requires run[c.maxRequests].now == 2.0 * c.window && run[c.maxRequests + 1].IsAllowed?
    requires one == (if run[c.maxRequests].IsAllowed? then [2.0 * c.window] else []) && |one| < c.maxRequests
    ensures Play(c, run).log == Copies(c.window, c.maxRequests) + one + [run[c.maxRequests + 1].now]
  {
    var front, last := run[..|run| - 1], run[|run| - 1];
    AfterTheBurst(c, front);
    LateIsGranted(c, Play(c, front), last);
  }

  /** Nothing of the burst is left one window later. */
  lemma AfterTheBurst(c: Config, calls: seq<Call>)
    requires c.maxRequests >= 1 && c.window > 0.0 && |calls| == c.maxRequests + 1
    requires forall i :: 0 <= i < c.maxRequests ==> calls[i].IsAllowed? && calls[i].now == c.window
    requires calls[c.maxRequests].now == 2.0 * c.window
    ensures var one := if calls[c.maxRequests].IsAllowed? then [2.0 * c.window] else [];
      Play(c, calls) == Journal(one, Copies(c.window, c.maxRequests) + one)
  {
    var front, last := calls[..|calls| - 1], calls[|calls| - 1];
    BurstIsGranted(c, c.window, front);
    BurstIsPruned(c, last);
    assert Play(c, calls) == Note(c, Play(c, front), last);
  }

  lemma BurstIsPruned(c: Config, call: Call)
    requires c.maxRequests >= 1 && call.now == 2.0 * c.window
    ensures var burst := Copies(c.window, c.maxRequests);
      var one := if call.IsAllowed? then [2.0 * c.window] else [];
      Note(c, Journal(burst, burst), call) == Journal(one, burst + one)
  {
    CopiesLater(c.window, c.maxRequests, c.window);
    var burst := Copies(c.window, c.maxRequests);
    assert burst + [] == burst;
  }

  lemma LateIsGranted(c: Config, j: Journal, call: Call)
    requires |j.list| < c.maxRequests && call.IsAllowed?
    ensures Note(c, j, call).log == j.log + [call.now]
  {
    FewerAreLater(j.list, call.now - c.window);
  }

  lemma OverfullLog(at: Time, m: nat, one: seq<Time>, t: Time, from: Time)
    requires from < at <= t
    ensures |Within(Copies(at, m) + one + [t], from, t)| > m
  {
    CopiesWithin(at, m, from, t);
    WithinAppend(Copies(at, m) + one, [t], from, t);
    WithinAppend(Copies(at, m), one, from, t);
    assert [t][1..] == [];
  }

  /** Exactly which windows are safe: those shorter than the stated one by the skew,
      and none when the skew reaches the window. */
  lemma SafeWindowsIff(c: Config, skew: Time, len: Time)
    requires c.maxRequests >= 1 && c.window > 0.0 && skew >= 0.0
    ensures Limits(c, skew, len) <==> len <= c.window - Sooner(skew, c.window)
  {
    if len <= c.window - Sooner(skew, c.window) {
      forall calls, key, t | SkewAtMost(calls, skew) ensures HoldsAtMost(c, calls, key, len, t) {
        ShortWindowsAreSafe(c, skew, len, calls, key, t);
      }
    } else {
      var key: string := "";
      var d, between := Sooner(skew, c.window), Remaining(key, 2.0 * c.window);
      LateRunIsSkewed(c, key, between, d);
      SkewOverfills(c, key, between, d, len);
      assert SkewAtMost(LateRun(c, key, between, d), skew);
      assert !HoldsAtMost(c, LateRun(c, key, between, d), key, len, 2.0 * c.window - d);
    }
  }

  // ------------------------------------------------- runs of admissions alone

  /** With a limit of one, each admission is a full window after the one before,
      however late the readings are. */
  predicate Spaced(stamps: seq<Time>, window: Time) {
    forall i, j :: 0 <= i < j < |stamps| ==> stamps[j] >= stamps[i] + window
  }

  predicate HoldsTheNewest(c: Config, j: Journal) {
    Spaced(j.log, c.window) && j.list == if j.log == [] then [] else [j.log[|j.log| - 1]]
  }

  lemma {:induction false} SinglePlayIsSpaced(c: Config, calls: seq<Call>)
    requires c.maxRequests == 1 && c.window > 0.0 && AdmissionsOnly(calls)
    ensures HoldsTheNewest(c, Play(c, calls))
  {
    if calls != [] {
      SinglePlayIsSpaced(c, calls[..|calls| - 1]);
      NextIsSpaced(c, Play(c, calls[..|calls| - 1]), calls[|calls| - 1]);
    }
  }

  lemma NextIsSpaced(c: Config, j: Journal, call: Call)
    requires c.maxRequests == 1 && c.window > 0.0 && call.IsAllowed? && HoldsTheNewest(c, j)
    ensures HoldsTheNewest(c, Note(c, j, call))
  {
    OnlyTheNewest(j.log, call.now, c.window);
  }

  lemma {:induction false} OnlyKeyKeeps(calls: seq<Call>, key: string)
    ensures forall i ::
      0 <= i < |OnlyKey(calls, key)| ==> OnlyKey(calls, key)[i].key == key && OnlyKey(calls, key)[i] in calls
  {
    if calls != [] {
      OnlyKeyKeeps(calls[..|calls| - 1], key);
    }
  }

  lemma SingleAdmissionsAreSpaced(c: Config, calls: seq<Call>, key: string)
    requires c.maxRequests == 1 && c.window > 0.0 && AdmissionsOnly(calls)
    ensures Spaced(Log(c, calls, key), c.window)
  {
    KeysAreIndependent(c, calls, key);
    OnlyKeyKeeps(calls, key);
    JournalOfARun(c, OnlyKey(calls, key), key);
    SinglePlayIsSpaced(c, OnlyKey(calls, key));
  }

  lemma OnlyTheNewest(log: seq<Time>, now: Time, window: Time)
    requires Spaced(log, window) && window > 0.0
    ensures var list := if log == [] then [] else [log[|log| - 1]];
      if Later(list, now - window) == [] then Spaced(log + [now], window) else Later(list, now - window) == list
  {
    if log != [] {
      var newest := log[|log| - 1];
      assert [newest][1..] == [];
      assert forall i :: 0 <= i < |log| ==> log[i] <= newest;
    }
  }

  lemma {:induction false} SpacedHoldOne(stamps: seq<Time>, window: Time, t: Time)
    requires Spaced(stamps, window) && window > 0.0
    ensures |Within(stamps, t - window, t)| <= 1
  {
    if stamps != [] {
      SpacedHoldOne(stamps[1..], window, t);
      if t - window < stamps[0] <= t {
        NoneWithin(stamps[1..], t - window, t);
      }
    }
  }

  lemma {:induction false} NoneWithin(stamps: seq<Time>, from: Time, upTo: Time)
    requires forall i :: 0 <= i < |stamps| ==> stamps[i] > upTo
    ensures Within(stamps, from, upTo) == []
  {
    if stamps != [] {
      NoneWithin(stamps[1..], from, upTo);
    }
  }

  /** One window apart is close enough to overfill a longer window. */
  lemma LongWindowsOverfill(c: Config, key: string, len: Time)
    requires c.maxRequests == 1 && c.window > 0.0 && len > c.window
    ensures var calls := Burst(key, c.window, 1) + [IsAllowed(key, 2.0 * c.window)];
      |Within(Log(c, calls, key), 2.0 * c.window - len, 2.0 * c.window)| > 1
  {
    var calls, t := Burst(key, c.window, 1) + [IsAllowed(key, 2.0 * c.window)], 2.0 * c.window;
    JournalOfARun(c, calls, key);
    AfterTheBurst(c, calls);
    CopiesWithin(c.window, 1, t - len, t);
    WithinAppend(Copies(c.window, 1), [t], t - len, t);
    assert [t][1..] == [];
  }

  lemma SingleLimitIff(c: Config, skew: Time, len: Time)
    requires c.maxRequests == 1 && c.window > 0.0 && skew >= 0.0
    ensures LimitsAdmissions(c, skew, len) <==> len <= c.window
  {
    if len <= c.window {
      forall calls, key, t | SkewAtMost(calls, skew) && AdmissionsOnly(calls)
        ensures HoldsAtMost(c, calls, key, len, t)
      {
        SingleAdmissionsAreSpaced(c, calls, key);
        SpacedHoldOne(Log(c, calls, key), c.window, t);
        NarrowerHoldsLess(Log(c, calls, key), t - len, t - c.window, t);
      }
    } else {
      var calls := Burst("", c.window, 1) + [IsAllowed("", 2.0 * c.window)];
      LongWindowsOverfill(c, "", len);
      assert SkewAtMost(calls, skew) && AdmissionsOnly(calls) && !HoldsAtMost(c, calls, "", len, 2.0 * c.window);
    }
  }

  lemma LargerLimitIff(c: Config, skew: Time, len: Time)
    requires c.maxRequests >= 2 && c.window > 0.0 && skew >= 0.0
    ensures LimitsAdmissions(c, skew, len) <==> len <= c.window - Sooner(skew, c.window)
  {
    var d, next := Sooner(skew, c.window), IsAllowed("", 2.0 * c.window);
    if len <= c.window - d {
      forall calls, key, t | SkewAtMost(calls, skew) && AdmissionsOnly(calls)
        ensures HoldsAtMost(c, calls, key, len, t)
      {
        ShortWindowsAreSafe(c, skew, len, calls, key, t);
      }
    } else {
      var run := LateRun(c, "", next, d);
      LateRunIsSkewed(c, "", next, d);
      SkewOverfills(c, "", next, d, len);
      assert SkewAtMost(run, skew) && AdmissionsOnly(run) && !HoldsAtMost(c, run, "", len, 2.0 * c.window - d);
    }
  }

  /** The application never asks what remains. On its runs a limit of one holds on
      full windows whatever the skew, and any other on the shortened ones only. */
  lemma SafeWindowsOfAdmissionsIff(c: Config, skew: Time, len: Time)
    requires c.maxRequests >= 1 && c.window > 0.0 && skew >= 0.0
    ensures LimitsAdmissions(c, skew, len)
      <==> len <= if c.maxRequests == 1 then c.window else c.window - Sooner(skew, c.window)
  {
    if c.maxRequests == 1 {
      SingleLimitIff(c, skew, len);
    } else {
      LargerLimitIff(c, skew, len);
    }
  }
}
