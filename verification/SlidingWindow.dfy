/**
 The sliding window that both the request throttle and the deprecation warner
 implement with less state: at most `limit` admissions in any half-open window of
 `duration` seconds, granted greedily.

 A log is a list of admission times, newest first. Nothing is ever forgotten here;
 the implementations keep only a prefix of the log and refine this definition.
 */
module SlidingWindow {

  datatype Rate = Rate(limit: int, duration: real)

  /** How many times in the log fall in the half-open window (lo, hi]. */
  function InWindow(log: seq<real>, lo: real, hi: real): nat {
    if log == [] then 0
    else (if lo < log[0] <= hi then 1 else 0) + InWindow(log[1..], lo, hi)
  }

  ghost predicate NewestFirst(log: seq<real>) {
    forall i, j :: 0 <= i < j < |log| ==> log[i] >= log[j]
  }

  ghost predicate Rising(ts: seq<real>) {
    forall i, j :: 0 <= i < j < |ts| ==> ts[i] <= ts[j]
  }

  /** No window of the rate's duration ever holds more than `limit` times. */
  ghost predicate Bounded(rate: Rate, log: seq<real>) {
    forall x: real :: WithinLimit(rate, log, x)
  }

  /** The window that ends at x holds at most `limit` times. */
  predicate WithinLimit(rate: Rate, log: seq<real>, x: real) {
    InWindow(log, x - rate.duration, x) <= rate.limit
  }

  /** Fewer than `limit` times of the log are in the window that ends now. */
  predicate HasRoom(rate: Rate, log: seq<real>, now: real) {
    InWindow(log, now - rate.duration, now) < rate.limit
  }

  /** The admissions granted among the first k requests: each request that finds room is granted. */
  function Admitted(rate: Rate, ts: seq<real>, k: nat): seq<real>
    requires k <= |ts|
  {
    if k == 0 then []
    else
      var log := Admitted(rate, ts, k - 1);
      if HasRoom(rate, log, ts[k - 1]) then [ts[k - 1]] + log else log
  }

  /** Request i is granted when fewer than `limit` earlier grants are in its window. */
  predicate Grants(rate: Rate, ts: seq<real>, i: nat)
    requires i < |ts|
  {
    HasRoom(rate, Admitted(rate, ts, i), ts[i])
  }

  /** The log of any selection of the requests, greedy or not. */
  function Picked(ts: seq<real>, on: seq<bool>, k: nat): seq<real>
    requires k <= |ts| == |on|
  {
    if k == 0 then []
    else if on[k - 1] then [ts[k - 1]] + Picked(ts, on, k - 1)
    else Picked(ts, on, k - 1)
  }

  function GrantFlags(rate: Rate, ts: seq<real>): seq<bool> {
    seq(|ts|, i requires 0 <= i < |ts| => Grants(rate, ts, i))
  }

  lemma {:induction false} AdmittedIsPicked(rate: Rate, ts: seq<real>, k: nat)
    requires k <= |ts|
    ensures Admitted(rate, ts, k) == Picked(ts, GrantFlags(rate, ts), k)
  {
    if k > 0 {
      AdmittedIsPicked(rate, ts, k - 1);
    }
  }

  // ----- counting -----

  lemma {:induction false} InWindowConcat(a: seq<real>, b: seq<real>, lo: real, hi: real)
    ensures InWindow(a + b, lo, hi) == InWindow(a, lo, hi) + InWindow(b, lo, hi)
  {
    if a == [] {
      assert a + b == b;
    } else {
      assert (a + b)[1..] == a[1..] + b;
      InWindowConcat(a[1..], b, lo, hi);
    }
  }

  lemma {:induction false} InWindowNone(log: seq<real>, lo: real, hi: real)
    requires forall a :: a in log ==> !(lo < a <= hi)
    ensures InWindow(log, lo, hi) == 0
  {
    if log != [] {
      assert log[0] in log && forall a :: a in log[1..] ==> a in log;
      InWindowNone(log[1..], lo, hi);
    }
  }

  lemma {:induction false} InWindowAll(log: seq<real>, lo: real, hi: real)
    requires forall a :: a in log ==> lo < a <= hi
    ensures InWindow(log, lo, hi) == |log|
  {
    if log != [] {
      assert log[0] in log && forall a :: a in log[1..] ==> a in log;
      InWindowAll(log[1..], lo, hi);
    }
  }

  lemma {:induction false} InWindowAtMost(log: seq<real>, lo: real, hi: real)
    ensures InWindow(log, lo, hi) <= |log|
  {
    if log != [] {
      InWindowAtMost(log[1..], lo, hi);
    }
  }

  /** Widening a window downwards never loses a time, and nothing is lost above the newest. */
  lemma {:induction false} InWindowWiden(log: seq<real>, lo: real, hi: real, lo': real, hi': real)
    requires lo' <= lo
    requires forall a :: a in log ==> a <= hi'
    ensures InWindow(log, lo, hi) <= InWindow(log, lo', hi')
  {
    if log != [] {
      assert log[0] in log && forall a :: a in log[1..] ==> a in log;
      InWindowWiden(log[1..], lo, hi, lo', hi');
    }
  }

  /** A prefix inside the window followed by times at or before its start: the count is the prefix length. */
  lemma InWindowPrefix(log: seq<real>, m: nat, lo: real, hi: real)
    requires m <= |log|
    requires forall j :: 0 <= j < m ==> lo < log[j] <= hi
    requires forall j :: m <= j < |log| ==> log[j] <= lo
    ensures InWindow(log, lo, hi) == m
  {
    assert log == log[..m] + log[m..];
    InWindowConcat(log[..m], log[m..], lo, hi);
    InWindowAll(log[..m], lo, hi);
    InWindowNone(log[m..], lo, hi);
  }

  // ----- the bound, in two readings -----

  /** Each admission is at least one duration after the one `limit` places before it. */
  ghost predicate Spaced(rate: Rate, log: seq<real>)
    requires rate.limit >= 0
  {
    forall i :: 0 <= i < |log| - rate.limit ==> log[i] - log[i + rate.limit] >= rate.duration
  }

  lemma BoundedIffSpaced(rate: Rate, log: seq<real>)
    requires NewestFirst(log) && rate.limit >= 0 && rate.duration > 0.0
    ensures Bounded(rate, log) <==> Spaced(rate, log)
  {
    if Bounded(rate, log) {
      forall i | 0 <= i < |log| - rate.limit ensures log[i] - log[i + rate.limit] >= rate.duration {
        if log[i] - log[i + rate.limit] < rate.duration {
          assert WithinLimit(rate, log, log[i]);
          Crowded(log, i, i + rate.limit + 1, log[i] - rate.duration, log[i]);
        }
      }
    }
    if Spaced(rate, log) {
      forall x: real ensures WithinLimit(rate, log, x) {
        SpacedIsBounded(rate, log, x);
      }
    }
  }

  lemma Crowded(log: seq<real>, i: nat, j: nat, lo: real, hi: real)
    requires i <= j <= |log|
    requires forall p :: i <= p < j ==> lo < log[p] <= hi
    ensures InWindow(log, lo, hi) >= j - i
  {
    assert log == log[..i] + (log[i..j] + log[j..]);
    InWindowConcat(log[..i], log[i..j] + log[j..], lo, hi);
    InWindowConcat(log[i..j], log[j..], lo, hi);
    InWindowAll(log[i..j], lo, hi);
  }

  lemma {:induction false} SpacedIsBounded(rate: Rate, log: seq<real>, x: real)
    requires NewestFirst(log) && rate.limit >= 0 && Spaced(rate, log)
    ensures InWindow(log, x - rate.duration, x) <= rate.limit
  {
    var lo, n := x - rate.duration, rate.limit;
    if log == [] {
    } else if !(lo < log[0] <= x) {
      assert Spaced(rate, log[1..]) by {
        forall i | 0 <= i < |log[1..]| - n ensures log[1..][i] - log[1..][i + n] >= rate.duration {
          assert log[i + 1] - log[i + 1 + n] >= rate.duration;
        }
      }
      SpacedIsBounded(rate, log[1..], x);
    } else if |log| <= n {
      InWindowAtMost(log, lo, x);
    } else {
      assert log[0] - log[0 + n] >= rate.duration;
      assert log == log[..n] + log[n..];
      InWindowConcat(log[..n], log[n..], lo, x);
      InWindowAtMost(log[..n], lo, x);
      InWindowNone(log[n..], lo, x);
    }
  }

  // ----- safety of the greedy window -----

  lemma {:induction false} PickedShape(ts: seq<real>, on: seq<bool>, k: nat)
    requires Rising(ts) && k <= |ts| == |on|
    ensures NewestFirst(Picked(ts, on, k))
    ensures forall a :: a in Picked(ts, on, k) ==> exists i :: 0 <= i < k && on[i] && a == ts[i]
    ensures k > 0 ==> forall a :: a in Picked(ts, on, k) ==> a <= ts[k - 1]
  {
    if k > 0 {
      PickedShape(ts, on, k - 1);
      assert on[k - 1] ==> Picked(ts, on, k)[1..] == Picked(ts, on, k - 1);
      var log := Picked(ts, on, k);
      forall i, j | 0 <= i < j < |log| ensures log[i] >= log[j] {
        if on[k - 1] {
          assert log[j] == Picked(ts, on, k - 1)[j - 1];
          assert log[j] in Picked(ts, on, k - 1);
        }
      }
    }
  }

  /** One more admission keeps the bound when the window behind it had room. */
  lemma GrantKeepsBound(rate: Rate, log: seq<real>, now: real)
    requires Bounded(rate, log)
    requires forall a :: a in log ==> a <= now
    requires InWindow(log, now - rate.duration, now) < rate.limit
    ensures Bounded(rate, [now] + log)
  {
    forall x: real ensures WithinLimit(rate, [now] + log, x) {
      assert ([now] + log)[1..] == log;
      assert WithinLimit(rate, log, x);
      if x - rate.duration < now <= x {
        InWindowWiden(log, x - rate.duration, x, now - rate.duration, now);
      }
    }
  }

  /** At no time does a window of the rate's duration hold more than `limit` grants. */
  lemma {:induction false} GreedySafe(rate: Rate, ts: seq<real>, k: nat)
    requires Rising(ts) && rate.limit >= 0 && k <= |ts|
    ensures Bounded(rate, Admitted(rate, ts, k))
  {
    if k > 0 {
      GreedySafe(rate, ts, k - 1);
      if Grants(rate, ts, k - 1) {
        AdmittedIsPicked(rate, ts, k - 1);
        PickedShape(ts, GrantFlags(rate, ts), k - 1);
        GrantKeepsBound(rate, Admitted(rate, ts, k - 1), ts[k - 1]);
      }
    }
  }

  // ----- optimality of the greedy window -----

  /** Selections made before request j lie before the window; those from j to k lie in it. */
  lemma {:induction false} PickedSplit(ts: seq<real>, on: seq<bool>, j: nat, k: nat, lo: real, hi: real)
    requires j <= k <= |ts| == |on|
    requires forall p :: 0 <= p < j ==> ts[p] <= lo
    requires forall p :: j <= p < k ==> lo < ts[p] <= hi
    ensures |Picked(ts, on, k)| == |Picked(ts, on, j)| + InWindow(Picked(ts, on, k), lo, hi)
    decreases k
  {
    if j < k {
      PickedSplit(ts, on, j, k - 1, lo, hi);
      assert on[k - 1] ==> Picked(ts, on, k)[1..] == Picked(ts, on, k - 1);
    } else if k > 0 {
      PickedSplit(ts, on, k - 1, k - 1, lo, hi);
      assert on[k - 1] ==> Picked(ts, on, k)[1..] == Picked(ts, on, k - 1);
    }
  }

  lemma WindowStart(ts: seq<real>, i: nat, lo: real) returns (j: nat)
    requires Rising(ts) && i < |ts| && lo < ts[i]
    ensures j <= i
    ensures forall p :: 0 <= p < j ==> ts[p] <= lo
    ensures forall p :: j <= p <= i ==> lo < ts[p] <= ts[i]
  {
    j := i;
    while j > 0 && lo < ts[j - 1]
      invariant j <= i
      invariant forall p :: j <= p <= i ==> lo < ts[p]
    {
      j := j - 1;
    }
  }

  lemma {:induction false} PickedWindowGrows(ts: seq<real>, on: seq<bool>, k: nat, n: nat, lo: real, hi: real)
    requires k <= n <= |ts| == |on|
    ensures InWindow(Picked(ts, on, k), lo, hi) <= InWindow(Picked(ts, on, n), lo, hi)
    decreases n
  {
    if k < n {
      PickedWindowGrows(ts, on, k, n - 1, lo, hi);
      assert on[n - 1] ==> Picked(ts, on, n)[1..] == Picked(ts, on, n - 1);
    }
  }

  /** On every prefix, the greedy window admits at least as many requests as any selection that respects the rate. */
  lemma {:induction false} GreedyOptimal(rate: Rate, ts: seq<real>, on: seq<bool>, k: nat)
    requires Rising(ts) && rate.duration > 0.0
    requires k <= |ts| == |on|
    requires Bounded(rate, Picked(ts, on, |ts|))
    ensures |Picked(ts, on, k)| <= |Admitted(rate, ts, k)|
  {
    if k > 0 {
      var i := k - 1;
      if !on[i] || Grants(rate, ts, i) {
        GreedyOptimal(rate, ts, on, i);
      } else {
        var lo, flags := ts[i] - rate.duration, GrantFlags(rate, ts);
        var j := WindowStart(ts, i, lo);
        GreedyOptimal(rate, ts, on, j);
        AdmittedIsPicked(rate, ts, i);
        AdmittedIsPicked(rate, ts, j);
        PickedSplit(ts, flags, j, i, lo, ts[i]);
        PickedSplit(ts, on, j, k, lo, ts[i]);
        PickedWindowGrows(ts, on, k, |ts|, lo, ts[i]);
        assert WithinLimit(rate, Picked(ts, on, |ts|), ts[i]);
      }
    }
  }
}
