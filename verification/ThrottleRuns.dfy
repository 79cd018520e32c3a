/**
 Requests on one key that do not overlap: each store write comes before the next read.
 The pruned, expiring history is then as good as a log that forgets nothing, so the
 throttle is exactly the greedy sliding window.
 */
module ThrottleRuns {
  import opened Wrappers
  import opened SlidingWindow
  import opened Throttle

  /** Request i is over in itself, and starts after the one before it has ended. */
  predicate InTurn(ts: seq<Timing>, i: nat)
    requires i < |ts|
  {
    Ordered(ts[i]) && (i > 0 ==> ts[i - 1].write <= ts[i].read)
  }

  ghost predicate Sequential(ts: seq<Timing>) {
    forall i :: 0 <= i < |ts| ==> InTurn(ts, i)
  }

  lemma SequentialAt(ts: seq<Timing>, i: nat)
    requires Sequential(ts) && i < |ts|
    ensures Ordered(ts[i])
    ensures i > 0 ==> Ordered(ts[i - 1]) && ts[i - 1].write <= ts[i].read
  {
    assert InTurn(ts, i);
    assert i > 0 ==> InTurn(ts, i - 1);
  }

  lemma {:induction false} SequentialBefore(ts: seq<Timing>, i: nat, j: nat)
    requires Sequential(ts) && i < j < |ts|
    ensures Ordered(ts[i]) && Ordered(ts[j]) && ts[i].write <= ts[j].read
    decreases j
  {
    SequentialAt(ts, j);
    if i < j - 1 {
      SequentialBefore(ts, i, j - 1);
    }
  }

  function Clocks(ts: seq<Timing>): seq<real> {
    seq(|ts|, i requires 0 <= i < |ts| => ts[i].clock)
  }

  /** The slot after the first k requests. */
  function SlotAt(rate: Rate, slot: Slot, ts: seq<Timing>, k: nat): Slot
    requires k <= |ts|
  {
    if k == 0 then slot else SlotAfter(rate, SlotAt(rate, slot, ts, k - 1), ts[k - 1])
  }

  // ----- the stored history refines the log of every admission -----

  ghost predicate Prefix(a: seq<real>, b: seq<real>) {
    |a| <= |b| && forall j :: 0 <= j < |a| ==> a[j] == b[j]
  }

  /** The slot stands for the log: what it lacks has left the window of the latest admission. */
  ghost predicate Refines(rate: Rate, slot: Slot, log: seq<real>, time: real) {
    && NewestFirst(log)
    && (forall j :: 0 <= j < |log| ==> log[j] <= time)
    && match slot
       case None => log == []
       case Some(e) =>
         && 1 <= |e.history| <= rate.limit
         && Prefix(e.history, log)
         && (forall j :: |e.history| <= j < |log| ==> log[j] <= log[0] - rate.duration)
         && log[0] + rate.duration <= e.expiresAt
  }

  /** `kept` is the newest part of the log, and holds exactly its times in (lo, hi]. */
  ghost predicate IsWindow(kept: seq<real>, log: seq<real>, lo: real, hi: real) {
    && |kept| <= |log|
    && (forall j :: 0 <= j < |kept| ==> kept[j] == log[j] && lo < kept[j] <= hi)
    && (forall j :: |kept| <= j < |log| ==> log[j] <= lo)
    && |kept| == InWindow(log, lo, hi)
  }

  /** Pruning a prefix of the log that holds the whole window leaves exactly the window. */
  lemma PruneIsWindow(history: seq<real>, log: seq<real>, lo: real, hi: real)
    requires NewestFirst(log) && Prefix(history, log)
    requires forall j :: 0 <= j < |log| ==> log[j] <= hi
    requires forall j :: |history| <= j < |log| ==> log[j] <= lo
    ensures IsWindow(Prune(history, lo), log, lo, hi)
  {
    var kept := Prune(history, lo);
    forall j | 0 <= j < |kept| ensures kept[j] == log[j] && lo < kept[j] <= hi {
      assert kept[j] == history[j] && kept[|kept| - 1] == history[|kept| - 1];
    }
    forall j | |kept| <= j < |log| ensures log[j] <= lo {
      assert j < |history| ==> history[j] == log[j];
    }
    InWindowPrefix(log, |kept|, lo, hi);
  }

  /**
   What is kept of the stored history is exactly the part of the full log inside the
   window, and dropping the expiry would not change it.
   */
  lemma KeptIsTheWindow(rate: Rate, slot: Slot, log: seq<real>, time: real, t: Timing)
    requires rate.duration > 0.0 && Ordered(t) && time <= t.read && Refines(rate, slot, log, time)
    ensures IsWindow(Kept(rate, LiveHistory(slot, t.read), t.clock), log, t.clock - rate.duration, t.clock)
    ensures slot.Some? ==> Kept(rate, LiveHistory(slot, t.read), t.clock) == Kept(rate, slot.value.history, t.clock)
  {
    hide Prune, InWindow, NewestFirst, IsWindow;
    var cutoff := t.clock - rate.duration;
    match slot
    case None =>
      PruneIsWindow([], log, cutoff, t.clock);
    case Some(e) =>
      assert log[0] <= time;
      PruneIsWindow(e.history, log, cutoff, t.clock);
      if t.read >= e.expiresAt {
        PruneIsWindow([], log, cutoff, t.clock);
        WindowIsUnique(Prune(e.history, cutoff), Prune([], cutoff), log, cutoff, t.clock);
      }
  }

  lemma WindowIsUnique(a: seq<real>, b: seq<real>, log: seq<real>, lo: real, hi: real)
    requires IsWindow(a, log, lo, hi) && IsWindow(b, log, lo, hi)
    ensures a == b
  {
  }

  lemma NothingRefines(rate: Rate, time: real)
    ensures Refines(rate, None, [], time)
  {
  }

  lemma RefinesLater(rate: Rate, slot: Slot, log: seq<real>, time: real, later: real)
    requires Refines(rate, slot, log, time) && time <= later
    ensures Refines(rate, slot, log, later)
  {
  }

  /** The full log after a request. */
  function LogAfter(rate: Rate, slot: Slot, log: seq<real>, t: Timing): seq<real> {
    if Allowed(rate, slot, t) then [t.clock] + log else log
  }

  /** Recording a grant on top of exactly the window refines the extended log. */
  lemma GrantRefines(rate: Rate, kept: seq<real>, log: seq<real>, now: real, written: real)
    requires rate.duration > 0.0 && now <= written && |kept| < rate.limit
    requires NewestFirst(log) && (forall j :: 0 <= j < |log| ==> log[j] <= now)
    requires IsWindow(kept, log, now - rate.duration, now)
    ensures Refines(rate, Stored(rate, [now] + kept, written), [now] + log, written)
  {
    hide InWindow;
  }

  /** An undisturbed request decides on the full log, and keeps the slot in step with it. */
  lemma RequestRefines(rate: Rate, slot: Slot, log: seq<real>, time: real, t: Timing)
    requires rate.duration > 0.0 && Ordered(t) && time <= t.read && Refines(rate, slot, log, time)
    ensures Allowed(rate, slot, t) <==> HasRoom(rate, log, t.clock)
    ensures Refines(rate, SlotAfter(rate, slot, t), LogAfter(rate, slot, log, t), t.write)
  {
    hide InWindow, Kept, NewestFirst;
    KeptIsTheWindow(rate, slot, log, time, t);
    var kept := Kept(rate, LiveHistory(slot, t.read), t.clock);
    if Allows(rate, kept) {
      GrantRefines(rate, kept, log, t.clock, t.write);
    } else {
      RefinesLater(rate, slot, log, time, t.write);
    }
  }

  lemma {:induction false} RunRefines(rate: Rate, ts: seq<Timing>, k: nat, time: real)
    requires rate.duration > 0.0 && Sequential(ts) && k <= |ts|
    requires k > 0 ==> ts[k - 1].write <= time
    ensures Refines(rate, SlotAt(rate, None, ts, k), Admitted(rate, Clocks(ts), k), time)
  {
    hide Refines, NewestFirst, Allowed;
    if k == 0 {
      NothingRefines(rate, time);
    } else {
      SequentialAt(ts, k - 1);
      RunRefines(rate, ts, k - 1, ts[k - 1].read);
      var log, slot, t := Admitted(rate, Clocks(ts), k - 1), SlotAt(rate, None, ts, k - 1), ts[k - 1];
      RequestRefines(rate, slot, log, t.read, t);
      assert Admitted(rate, Clocks(ts), k) == LogAfter(rate, slot, log, t);
      RefinesLater(rate, SlotAt(rate, None, ts, k), Admitted(rate, Clocks(ts), k), t.write, time);
    }
  }

  /** In any non-overlapping run the throttle grants exactly what the sliding window grants. */
  lemma SequentialIsSlidingWindow(rate: Rate, ts: seq<Timing>, i: nat)
    requires rate.duration > 0.0 && Sequential(ts) && i < |ts|
    ensures Allowed(rate, SlotAt(rate, None, ts, i), ts[i]) <==> Grants(rate, Clocks(ts), i)
  {
    hide Refines, Allowed, InWindow, Sequential;
    SequentialAt(ts, i);
    RunRefines(rate, ts, i, ts[i].read);
    RequestRefines(rate, SlotAt(rate, None, ts, i), Admitted(rate, Clocks(ts), i), ts[i].read, ts[i]);
  }

  lemma ClocksRise(ts: seq<Timing>)
    requires Sequential(ts)
    ensures Rising(Clocks(ts))
  {
    forall i, j | 0 <= i < j < |ts| ensures Clocks(ts)[i] <= Clocks(ts)[j] {
      SequentialBefore(ts, i, j);
    }
  }

  /** Which requests of a run the throttle admits. */
  function Admissions(rate: Rate, ts: seq<Timing>): seq<bool> {
    seq(|ts|, i requires 0 <= i < |ts| => Allowed(rate, SlotAt(rate, None, ts, i), ts[i]))
  }

  /**
   The throttle never exceeds its rate, and on every prefix of the run it admits at
   least as many requests as any selection of them that keeps the rate.
   */
  lemma ThrottleSafeAndOptimal(rate: Rate, ts: seq<Timing>, on: seq<bool>, k: nat)
    requires rate.duration > 0.0 && Sequential(ts) && k <= |ts| == |on|
    ensures rate.limit >= 0 ==> Bounded(rate, Picked(Clocks(ts), Admissions(rate, ts), k))
    ensures Bounded(rate, Picked(Clocks(ts), on, |ts|)) ==>
              |Picked(Clocks(ts), on, k)| <= |Picked(Clocks(ts), Admissions(rate, ts), k)|
  {
    hide Sequential, Bounded, Rising;
    forall i | 0 <= i < |ts| ensures Admissions(rate, ts)[i] == GrantFlags(rate, Clocks(ts))[i] {
      SequentialIsSlidingWindow(rate, ts, i);
    }
    assert Admissions(rate, ts) == GrantFlags(rate, Clocks(ts));
    AdmittedIsPicked(rate, Clocks(ts), k);
    ClocksRise(ts);
    if rate.limit >= 0 {
      GreedySafe(rate, Clocks(ts), k);
    }
    if Bounded(rate, Picked(Clocks(ts), on, |ts|)) {
      GreedyOptimal(rate, Clocks(ts), on, k);
    }
  }

  // ----- the recommended wait -----

  /** After a denial the wait is what remains until the oldest of `limit` admissions leaves the window. */
  lemma DenialWait(rate: Rate, slot: Slot, log: seq<real>, time: real, t: Timing) returns (v: real)
    requires rate.duration > 0.0 && rate.limit >= 1 && Ordered(t) && time <= t.read
    requires Refines(rate, slot, log, time) && !Allowed(rate, slot, t)
    ensures WaitFor(rate, HistoryAfter(rate, slot, t), t.clock) == Some(v)
    ensures 0.0 < v <= rate.duration
    ensures slot.Some? && |slot.value.history| == rate.limit
    ensures t.clock + v == slot.value.history[rate.limit - 1] + rate.duration
  {
    hide WaitFor, InWindow, NewestFirst;
    KeptIsTheWindow(rate, slot, log, time, t);
    var kept := Kept(rate, LiveHistory(slot, t.read), t.clock);
    FullWait(rate, kept, t.clock);
    v := rate.duration - (t.clock - kept[|kept| - 1]);
  }

  lemma FullWait(rate: Rate, kept: seq<real>, now: real)
    requires |kept| == rate.limit >= 1
    ensures WaitFor(rate, kept, now) == Some(rate.duration - (now - kept[|kept| - 1]))
  {
    var remaining := rate.duration - (now - kept[|kept| - 1]);
    assert rate.limit - |kept| + 1 == 1;
    assert remaining / 1 as real == remaining;
  }

  /** With the slot untouched since a denial, a later request is admitted exactly from now + wait on. */
  lemma RetryIsExact(rate: Rate, slot: Slot, log: seq<real>, time: real, denied: Timing, retry: Timing, v: real)
    requires rate.duration > 0.0 && rate.limit >= 1
    requires Ordered(denied) && Ordered(retry) && time <= denied.read <= retry.read
    requires Refines(rate, slot, log, time) && !Allowed(rate, slot, denied)
    requires WaitFor(rate, HistoryAfter(rate, slot, denied), denied.clock) == Some(v)
    ensures Allowed(rate, slot, retry) <==> retry.clock >= denied.clock + v
  {
    hide Refines, Kept, IsWindow;
    var v' := DenialWait(rate, slot, log, time, denied);
    KeptIsTheWindow(rate, slot, log, time, retry);
    FullHistoryFrees(rate, slot.value.history, retry.clock);
  }

  lemma DenialKeepsSlot(rate: Rate, slot: Slot, t: Timing)
    requires !Allowed(rate, slot, t)
    ensures SlotAfter(rate, slot, t) == slot
  {
  }

  lemma FullHistoryFrees(rate: Rate, history: seq<real>, now: real)
    requires rate.limit >= 1 && |history| == rate.limit
    ensures |Kept(rate, history, now)| < rate.limit <==> history[rate.limit - 1] + rate.duration <= now
  {
    var kept := Kept(rate, history, now);
    assert |kept| == rate.limit ==> kept == history;
  }

  /**
   A denied client that keeps retrying, with no admission in between, is denied at every
   instant before now + wait and admitted at the first retry from then on.
   */
  lemma {:induction false} WaitIsExact(rate: Rate, slot: Slot, log: seq<real>, time: real, ts: seq<Timing>, i: nat, v: real)
    requires rate.duration > 0.0 && rate.limit >= 1
    requires Sequential(ts) && 0 < i < |ts| && time <= ts[0].read
    requires Refines(rate, slot, log, time) && !Allowed(rate, slot, ts[0])
    requires WaitFor(rate, HistoryAfter(rate, slot, ts[0]), ts[0].clock) == Some(v)
    requires forall j :: 0 < j < i ==> ts[j].clock < ts[0].clock + v
    ensures SlotAt(rate, slot, ts, i) == slot
    ensures Allowed(rate, SlotAt(rate, slot, ts, i), ts[i]) <==> ts[i].clock >= ts[0].clock + v
  {
    hide Refines, Allowed, WaitFor, HistoryAfter, SlotAfter;
    SequentialBefore(ts, 0, i);
    if i > 1 {
      WaitIsExact(rate, slot, log, time, ts, i - 1, v);
    }
    DenialKeepsSlot(rate, slot, ts[i - 1]);
    assert SlotAt(rate, slot, ts, 0) == slot;
    RetryIsExact(rate, slot, log, time, ts[0], ts[i], v);
  }

  // ----- clients that wait as told -----

  lemma Quotient(a: real, b: real)
    requires a > 0.0 && b >= 1.0
    ensures a / b > 0.0
    ensures (a / b) * b == a
  {
  }

  /** The recommended wait is positive, and by then a place is free. */
  lemma WaitFreesAPlace(rate: Rate, history: seq<real>, now: real, later: real, v: real)
    requires 1 <= |history| <= rate.limit && history[|history| - 1] > now - rate.duration
    requires WaitFor(rate, history, now) == Some(v)
    requires later >= now + v
    ensures v > 0.0
    ensures |Kept(rate, history, later)| < rate.limit
  {
    var available := (rate.limit - |history| + 1) as real;
    var remaining := rate.duration - (now - history[|history| - 1]);
    Quotient(remaining, available);
    if |history| == rate.limit {
      assert available == 1.0 && v == remaining;
      FullHistoryFrees(rate, history, later);
    }
  }

  lemma NextIsAllowed(rate: Rate, slot: Slot, t: Timing, next: Timing, v: real)
    requires rate.duration > 0.0 && Allowed(rate, slot, t)
    requires WaitFor(rate, HistoryAfter(rate, slot, t), t.clock) == Some(v)
    requires next.clock >= t.clock + v
    ensures v > 0.0
    ensures Allowed(rate, SlotAfter(rate, slot, t), next)
  {
    hide WaitFor;
    WaitFreesAPlace(rate, HistoryAfter(rate, slot, t), t.clock, next.clock, v);
  }

  /** Request i + 1 comes at least the wait recommended after request i. */
  predicate WaitsAt(rate: Rate, slot: Slot, ts: seq<Timing>, i: nat)
    requires i + 1 < |ts|
  {
    var w := WaitFor(rate, HistoryAfter(rate, SlotAt(rate, slot, ts, i), ts[i]), ts[i].clock);
    w.Some? && ts[i + 1].clock >= ts[i].clock + w.value
  }

  ghost predicate Polite(rate: Rate, slot: Slot, ts: seq<Timing>) {
    forall i :: 0 <= i < |ts| - 1 ==> WaitsAt(rate, slot, ts, i)
  }

  /**
   From any slot at all, a client that has been admitted once and then always waits at
   least as told is never throttled again, and is always told a positive wait.
   */
  lemma {:induction false} PoliteIsNeverThrottled(rate: Rate, slot: Slot, ts: seq<Timing>, i: nat)
    requires rate.duration > 0.0 && i < |ts|
    requires Allowed(rate, slot, ts[0]) && Polite(rate, slot, ts)
    ensures Allowed(rate, SlotAt(rate, slot, ts, i), ts[i])
    ensures i > 0 ==> ts[i].clock > ts[i - 1].clock
  {
    hide Allowed, WaitFor, HistoryAfter, SlotAfter;
    if i > 0 {
      PoliteIsNeverThrottled(rate, slot, ts, i - 1);
      var w := WaitFor(rate, HistoryAfter(rate, SlotAt(rate, slot, ts, i - 1), ts[i - 1]), ts[i - 1].clock);
      assert WaitsAt(rate, slot, ts, i - 1);
      NextIsAllowed(rate, SlotAt(rate, slot, ts, i - 1), ts[i - 1], ts[i], w.value);
    }
  }

  // ----- a client that waits exactly as told settles on even spacing -----

  /** The history is spaced by s, newest at top. */
  ghost predicate Even(history: seq<real>, top: real, s: real) {
    forall j :: 0 <= j < |history| ==> history[j] == top - j as real * s
  }

  lemma EvenWait(rate: Rate, history: seq<real>, now: real, s: real)
    requires rate.limit >= 1 && 1 <= |history| <= rate.limit && Even(history, now, s)
    requires rate.duration == rate.limit as real * s
    ensures WaitFor(rate, history, now) == Some(s)
  {
    var n, l := rate.limit as real, |history| as real;
    var oldest := history[|history| - 1];
    var available := (rate.limit - |history| + 1) as real;
    assert oldest == now - (l - 1.0) * s;
    assert rate.duration - (now - oldest) == available * s by {
      assert available == n - l + 1.0;
      Distribute(n, l - 1.0, s);
    }
    Cancel(available, s);
  }

  lemma Distribute(a: real, b: real, s: real)
    ensures a * s - b * s == (a - b) * s
  {
  }

  lemma Cancel(a: real, s: real)
    requires a >= 1.0
    ensures (a * s) / a == s
  {
  }

  /** Dropping what left the window of an evenly spaced, full history drops exactly the oldest. */
  lemma EvenKept(rate: Rate, history: seq<real>, now: real, s: real)
    requires rate.limit >= 1 && s > 0.0 && 1 <= |history| <= rate.limit && Even(history, now - s, s)
    requires rate.duration == rate.limit as real * s
    ensures Kept(rate, history, now) ==
            if |history| == rate.limit then history[..|history| - 1] else history
  {
    var l := |history|;
    var cutoff := now - rate.duration;
    assert history[l - 1] == now - s - (l - 1) as real * s;
    Distribute(rate.limit as real, l as real, s);
    assert history[l - 1] - cutoff == (rate.limit - l) as real * s by {
      Distribute(l as real, (l - 1) as real, s);
      assert rate.limit as real - l as real == (rate.limit - l) as real;
    }
    if l == rate.limit {
      assert history[l - 1] <= cutoff;
      if l > 1 {
        assert history[l - 2] == now - s - (l - 2) as real * s;
        Distribute((l - 1) as real, (l - 2) as real, s);
        assert history[l - 2] > history[l - 1];
      }
    } else {
      Positive((rate.limit - l) as real, s);
    }
  }

  lemma Positive(a: real, s: real)
    requires a >= 1.0 && s > 0.0
    ensures a * s > 0.0
  {
  }

  /** Request i + 1 comes exactly the wait recommended after request i. */
  predicate ObeysAt(rate: Rate, slot: Slot, ts: seq<Timing>, i: nat)
    requires i + 1 < |ts|
  {
    WaitFor(rate, HistoryAfter(rate, SlotAt(rate, slot, ts, i), ts[i]), ts[i].clock)
    == Some(ts[i + 1].clock - ts[i].clock)
  }

  ghost predicate Obedient(rate: Rate, slot: Slot, ts: seq<Timing>) {
    forall i :: 0 <= i < |ts| - 1 ==> ObeysAt(rate, slot, ts, i)
  }

  /** One obedient request keeps the history even. */
  lemma EvenStep(rate: Rate, h0: seq<real>, written: real, t: Timing, s: real)
    requires rate.limit >= 1 && s > 0.0 && rate.duration == rate.limit as real * s
    requires 1 <= |h0| <= rate.limit && Even(h0, t.clock - s, s)
    requires t.clock - s <= written <= t.read <= t.clock
    ensures var slot := Stored(rate, h0, written);
            && Allowed(rate, slot, t)
            && 1 <= |HistoryAfter(rate, slot, t)| <= rate.limit
            && Even(HistoryAfter(rate, slot, t), t.clock, s)
  {
    hide Prune, Even;
    var slot := Stored(rate, h0, written);
    EvenKept(rate, h0, t.clock, s);
    if t.read >= written + rate.duration {
      assert rate.duration <= s;
      OneOnly(rate.limit, s, rate.duration);
      KeptOfNothing(rate, t.clock);
    }
    assert Kept(rate, LiveHistory(slot, t.read), t.clock) == Kept(rate, h0, t.clock);
    EvenExtend(h0, Kept(rate, h0, t.clock), t.clock, s);
  }

  lemma OneOnly(n: int, s: real, d: real)
    requires n >= 1 && s > 0.0 && d == n as real * s && d <= s
    ensures n == 1
  {
    PositiveProduct(n - 1, s);
    Distribute(n as real, 1.0, s);
    assert n as real - 1.0 == (n - 1) as real;
  }

  lemma PositiveProduct(n: int, s: real)
    requires n >= 0 && s > 0.0
    ensures n >= 1 ==> n as real * s > 0.0
  {
    if n >= 1 {
      Positive(n as real, s);
    }
  }

  lemma KeptOfNothing(rate: Rate, now: real)
    ensures Kept(rate, [], now) == []
  {
  }

  lemma EvenExtend(history: seq<real>, kept: seq<real>, now: real, s: real)
    requires Even(history, now - s, s) && Prefix(kept, history)
    ensures Even([now] + kept, now, s)
  {
    forall j | 0 <= j < |kept| + 1 ensures ([now] + kept)[j] == now - j as real * s {
      if j > 0 {
        assert kept[j - 1] == history[j - 1];
        Distribute(j as real, (j - 1) as real, s);
      }
    }
  }

  /** The request is admitted and leaves an evenly spaced history. */
  ghost predicate Settled(rate: Rate, slot: Slot, t: Timing, s: real) {
    var h := HistoryAfter(rate, slot, t);
    Allowed(rate, slot, t) && 1 <= |h| <= rate.limit && Even(h, t.clock, s)
  }

  lemma SettledWait(rate: Rate, slot: Slot, t: Timing, s: real)
    requires rate.limit >= 1 && rate.duration == rate.limit as real * s
    requires Settled(rate, slot, t, s)
    ensures WaitFor(rate, HistoryAfter(rate, slot, t), t.clock) == Some(s)
  {
    EvenWait(rate, HistoryAfter(rate, slot, t), t.clock, s);
  }

  lemma FirstSettles(rate: Rate, t: Timing, s: real)
    requires rate.limit >= 1
    ensures Settled(rate, None, t, s)
  {
    KeptOfNothing(rate, t.clock);
  }

  lemma NextSettles(rate: Rate, slot: Slot, t: Timing, next: Timing, s: real)
    requires rate.limit >= 1 && s > 0.0 && rate.duration == rate.limit as real * s
    requires Ordered(t) && Ordered(next) && t.write <= next.read
    requires Settled(rate, slot, t, s)
    requires next.clock == t.clock + s
    ensures Settled(rate, SlotAfter(rate, slot, t), next, s)
  {
    hide Prune;
    EvenStep(rate, HistoryAfter(rate, slot, t), t.write, next, s);
  }

  lemma {:induction false} ObedientSettles(rate: Rate, ts: seq<Timing>, i: nat, s: real)
    requires rate.limit >= 1 && s > 0.0 && rate.duration == rate.limit as real * s
    requires Sequential(ts) && i < |ts| && Obedient(rate, None, ts)
    ensures Settled(rate, SlotAt(rate, None, ts, i), ts[i], s)
  {
    hide Settled, WaitFor, HistoryAfter, SlotAfter;
    if i == 0 {
      FirstSettles(rate, ts[0], s);
    } else {
      var slot, t := SlotAt(rate, None, ts, i - 1), ts[i - 1];
      ObedientSettles(rate, ts, i - 1, s);
      SettledWait(rate, slot, t, s);
      assert ObeysAt(rate, None, ts, i - 1);
      SequentialAt(ts, i);
      NextSettles(rate, slot, t, ts[i], s);
    }
  }

  /** Starting from an empty history, an obedient client's spacing is duration / limit for ever. */
  lemma ObedientSpacing(rate: Rate, ts: seq<Timing>, i: nat)
    requires rate.duration > 0.0 && rate.limit >= 1
    requires Sequential(ts) && i < |ts| && Obedient(rate, None, ts)
    ensures Allowed(rate, SlotAt(rate, None, ts, i), ts[i])
    ensures WaitFor(rate, HistoryAfter(rate, SlotAt(rate, None, ts, i), ts[i]), ts[i].clock)
            == Some(rate.duration / rate.limit as real)
  {
    hide Sequential, Obedient, Even, WaitFor;
    var s := rate.duration / rate.limit as real;
    Quotient(rate.duration, rate.limit as real);
    ObedientSettles(rate, ts, i, s);
    SettledWait(rate, SlotAt(rate, None, ts, i), ts[i], s);
  }
}
