/**
 The deprecation warner of insanic/decorators.py: every decorator instance reads and
 updates one class-level table from request key to the time of the last warning.
 Times are exact reals.
 */
module Deprecation {
  import opened SlidingWindow

  datatype Key = Key(service: string, httpMethod: string, template: string)

  /** One decorated call: the key of its request, the decorator's ttl and the time. */
  datatype Call = Call(key: Key, ttl: real, now: real)

  type Table = map<Key, real>

  predicate Due(table: Table, c: Call) {
    c.key !in table || table[c.key] + c.ttl <= c.now
  }

  function TableAfter(table: Table, c: Call): Table {
    if Due(table, c) then table[c.key := c.now] else table
  }

  class LastCalls {
    var table: Table

    constructor ()
      ensures table == map[]
    {
      table := map[];
    }
  }

  class Deprecate {
    const ttl: real
    const lastCalls: LastCalls

    constructor (ttl: real, lastCalls: LastCalls)
      ensures this.ttl == ttl && this.lastCalls == lastCalls
    {
      this.ttl := ttl;
      this.lastCalls := lastCalls;
    }

    /** The wrapper around a view: whether it logs a warning. */
    method Wrapper(key: Key, now: real) returns (warned: bool)
      modifies lastCalls
      ensures warned == Due(old(lastCalls.table), Call(key, ttl, now))
      ensures lastCalls.table == TableAfter(old(lastCalls.table), Call(key, ttl, now))
    {
      warned := false;
      if key !in lastCalls.table {
        lastCalls.table := lastCalls.table[key := now - ttl];
      }
      if lastCalls.table[key] + ttl <= now {
        warned := true;
        lastCalls.table := lastCalls.table[key := now];
      }
    }
  }

  // ----- runs over the shared table -----

  function TableAt(calls: seq<Call>, k: nat): Table
    requires k <= |calls|
  {
    if k == 0 then map[] else TableAfter(TableAt(calls, k - 1), calls[k - 1])
  }

  predicate Warned(calls: seq<Call>, i: nat)
    requires i < |calls|
  {
    Due(TableAt(calls, i), calls[i])
  }

  ghost predicate InOrder(calls: seq<Call>) {
    forall i, j :: 0 <= i < j < |calls| ==> calls[i].now <= calls[j].now
  }

  /** The table holds, per key, the time of the latest warning, and no earlier warning is newer. */
  lemma {:induction false} TableHoldsLatest(calls: seq<Call>, k: nat, key: Key)
    requires InOrder(calls) && k <= |calls|
    ensures key in TableAt(calls, k) ==>
              exists i :: 0 <= i < k && calls[i].key == key && Warned(calls, i) && calls[i].now == TableAt(calls, k)[key]
    ensures forall i :: 0 <= i < k && calls[i].key == key && Warned(calls, i) ==>
              key in TableAt(calls, k) && calls[i].now <= TableAt(calls, k)[key]
  {
    hide Warned;
    if k > 0 {
      TableHoldsLatest(calls, k - 1, key);
      var c := calls[k - 1];
      assert Warned(calls, k - 1) <==> Due(TableAt(calls, k - 1), c) by {
        WarnedIsDue(calls, k - 1);
      }
    }
  }

  lemma WarnedIsDue(calls: seq<Call>, i: nat)
    requires i < |calls|
    ensures Warned(calls, i) <==> Due(TableAt(calls, i), calls[i])
  {
  }

  /**
   Decorators with any mixture of ttls on one table: a call warns exactly when no earlier
   warning for its key, whoever emitted it, is younger than the caller's own ttl.
   */
  lemma WarnsIffNoRecentWarning(calls: seq<Call>, j: nat)
    requires InOrder(calls) && j < |calls|
    ensures Warned(calls, j) <==>
            forall i :: 0 <= i < j && calls[i].key == calls[j].key && Warned(calls, i) ==>
              calls[j].now - calls[i].now >= calls[j].ttl
  {
    TableHoldsLatest(calls, j, calls[j].key);
    WarnedIsDue(calls, j);
    hide Warned, TableAt;
    var table, key := TableAt(calls, j), calls[j].key;
    if key in table {
      var i :| 0 <= i < j && calls[i].key == key && Warned(calls, i) && calls[i].now == table[key];
    }
  }

  // ----- one key with one ttl is the window with limit 1 -----

  /** The times of the calls with this key among the first k. */
  function KeyTimes(calls: seq<Call>, key: Key, k: nat): seq<real>
    requires k <= |calls|
  {
    if k == 0 then []
    else if calls[k - 1].key == key then KeyTimes(calls, key, k - 1) + [calls[k - 1].now]
    else KeyTimes(calls, key, k - 1)
  }

  /** The times of the warnings for this key among the first k calls, newest first. */
  function WarnTimes(calls: seq<Call>, key: Key, k: nat): seq<real>
    requires k <= |calls|
  {
    if k == 0 then []
    else if calls[k - 1].key == key && Warned(calls, k - 1) then [calls[k - 1].now] + WarnTimes(calls, key, k - 1)
    else WarnTimes(calls, key, k - 1)
  }

  ghost predicate OneTtl(calls: seq<Call>, key: Key, ttl: real) {
    forall i :: 0 <= i < |calls| && calls[i].key == key ==> calls[i].ttl == ttl
  }

  lemma {:induction false} AdmittedExtends(rate: Rate, ts: seq<real>, x: real, k: nat)
    requires k <= |ts|
    ensures Admitted(rate, ts + [x], k) == Admitted(rate, ts, k)
  {
    if k > 0 {
      AdmittedExtends(rate, ts, x, k - 1);
      assert (ts + [x])[k - 1] == ts[k - 1];
    }
  }

  /** The table entry is the newest warning, and warnings are listed newest first. */
  lemma {:induction false} WarnTimesShape(calls: seq<Call>, key: Key, k: nat)
    requires InOrder(calls) && k <= |calls|
    ensures var log := WarnTimes(calls, key, k);
            && NewestFirst(log)
            && (log == [] <==> key !in TableAt(calls, k))
            && (log != [] ==> log[0] == TableAt(calls, k)[key])
            && (forall a :: a in log ==> k > 0 && a <= calls[k - 1].now)
  {
    hide Warned;
    if k > 0 {
      WarnTimesShape(calls, key, k - 1);
      WarnedIsDue(calls, k - 1);
      var log, rest := WarnTimes(calls, key, k), WarnTimes(calls, key, k - 1);
      assert log != rest ==> log == [calls[k - 1].now] + rest;
      forall i, j | 0 <= i < j < |log| && log != rest ensures log[i] >= log[j] {
        assert log[j] == rest[j - 1] && rest[j - 1] in rest;
      }
    }
  }

  /** With limit 1 the window is free exactly when the newest time has left it. */
  lemma LimitOne(log: seq<real>, ttl: real, now: real)
    requires NewestFirst(log) && (log != [] ==> log[0] <= now)
    ensures InWindow(log, now - ttl, now) < 1 <==> log == [] || log[0] + ttl <= now
  {
    if log != [] && log[0] + ttl <= now {
      InWindowNone(log, now - ttl, now);
    }
  }

  lemma {:induction false} WarnerIsWindow(calls: seq<Call>, key: Key, ttl: real, k: nat)
    requires InOrder(calls) && OneTtl(calls, key, ttl) && k <= |calls|
    ensures WarnTimes(calls, key, k) == Admitted(Rate(1, ttl), KeyTimes(calls, key, k), |KeyTimes(calls, key, k)|)
  {
    hide InWindow, NewestFirst, Admitted, Warned, TableAt;
    if k == 0 {
      AdmittedNone(Rate(1, ttl));
    } else {
      WarnerIsWindow(calls, key, ttl, k - 1);
      if calls[k - 1].key == key {
        var c, log, ts := calls[k - 1], WarnTimes(calls, key, k - 1), KeyTimes(calls, key, k - 1);
        WarnTimesShape(calls, key, k - 1);
        WarnedIsDue(calls, k - 1);
        assert log != [] ==> log[0] in log && log[0] <= c.now;
        LimitOne(log, ttl, c.now);
        AdmittedExtends(Rate(1, ttl), ts, c.now, |ts|);
        AdmittedStep(Rate(1, ttl), ts + [c.now], |ts| + 1);
      }
    }
  }

  lemma AdmittedNone(rate: Rate)
    ensures Admitted(rate, [], 0) == []
  {
  }

  lemma AdmittedStep(rate: Rate, ts: seq<real>, k: nat)
    requires 0 < k <= |ts|
    ensures var log := Admitted(rate, ts, k - 1);
            Admitted(rate, ts, k) ==
            if InWindow(log, ts[k - 1] - rate.duration, ts[k - 1]) < rate.limit then [ts[k - 1]] + log else log
  {
  }

  lemma {:induction false} KeyTimesRise(calls: seq<Call>, key: Key, k: nat)
    requires InOrder(calls) && k <= |calls|
    ensures Rising(KeyTimes(calls, key, k))
    ensures forall a :: a in KeyTimes(calls, key, k) ==> k > 0 && a <= calls[k - 1].now
  {
    if k > 0 {
      KeyTimesRise(calls, key, k - 1);
      var ts, before := KeyTimes(calls, key, k), KeyTimes(calls, key, k - 1);
      forall i, j | 0 <= i < j < |ts| && ts != before ensures ts[i] <= ts[j] {
        assert before[i] in before;
      }
    }
  }

  /**
   For one key and ttl the warnings are pairwise at least ttl apart, and no selection of
   the key's requests that is at least ttl apart has more members, on any prefix of the run.
   */
  lemma WarningsAreMaximal(calls: seq<Call>, key: Key, ttl: real, k: nat, on: seq<bool>)
    requires InOrder(calls) && OneTtl(calls, key, ttl) && k <= |calls| && ttl > 0.0
    requires |on| == |KeyTimes(calls, key, k)|
    ensures Spaced(Rate(1, ttl), WarnTimes(calls, key, k))
    ensures var chosen := Picked(KeyTimes(calls, key, k), on, |on|);
            Spaced(Rate(1, ttl), chosen) ==> |chosen| <= |WarnTimes(calls, key, k)|
  {
    hide OneTtl, WarnTimes, KeyTimes, InOrder, Spaced, Bounded, Picked, Admitted;
    var rate, ts := Rate(1, ttl), KeyTimes(calls, key, k);
    WarnerIsWindow(calls, key, ttl, k);
    KeyTimesRise(calls, key, k);
    GreedySafe(rate, ts, |ts|);
    WarnTimesShape(calls, key, k);
    BoundedIffSpaced(rate, WarnTimes(calls, key, k));
    PickedShape(ts, on, |ts|);
    BoundedIffSpaced(rate, Picked(ts, on, |ts|));
    if Spaced(rate, Picked(ts, on, |ts|)) {
      GreedyOptimal(rate, ts, on, |ts|);
    }
  }

  /** The first request with a key always warns: it is the oldest warning. */
  lemma {:induction false} FirstRequestWarns(calls: seq<Call>, key: Key, k: nat)
    requires k <= |calls|
    ensures var ts, log := KeyTimes(calls, key, k), WarnTimes(calls, key, k);
            && (ts == [] <==> log == [])
            && (ts != [] ==> log[|log| - 1] == ts[0])
            && (ts == [] <==> key !in TableAt(calls, k))
  {
    if k > 0 {
      FirstRequestWarns(calls, key, k - 1);
    }
  }
}
