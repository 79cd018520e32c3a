/**
 A view with several throttles (insanic/views.py): every throttle is asked, each under
 its own cache key, and the request is served only if all of them allow it. The first
 refusal becomes a Throttled error whose wait, rounded up, is the Retry-After header.
 */
module ThrottleView {
  import opened Wrappers
  import opened SlidingWindow
  import opened Throttle
  import opened ThrottleRuns

  // ----- cache keys -----

  function CacheKey(scope: string, ident: string): string {
    "throttle_" + scope + "_" + ident
  }

  /** Some identity under one scope has the key of some identity under the other. */
  ghost predicate Collide(s1: string, s2: string) {
    exists i1, i2 :: CacheKey(s1, i1) == CacheKey(s2, i2)
  }

  lemma KeyTail(scope: string, ident: string)
    ensures CacheKey(scope, ident)[9..] == scope + "_" + ident
  {
  }

  /** Two scopes collide exactly when they are equal or one, with an underscore, starts the other. */
  lemma CollideIff(s1: string, s2: string)
    ensures Collide(s1, s2) <==> s1 == s2 || s1 + "_" <= s2 || s2 + "_" <= s1
  {
    if s1 == s2 {
      assert CacheKey(s1, "") == CacheKey(s2, "");
    } else if s1 + "_" <= s2 {
      var _, _ := PrefixCollides(s1, s2);
    } else if s2 + "_" <= s1 {
      var _, _ := PrefixCollides(s2, s1);
    } else if Collide(s1, s2) {
      var i1, i2 :| CacheKey(s1, i1) == CacheKey(s2, i2);
      KeyTail(s1, i1);
      KeyTail(s2, i2);
      if |s1| <= |s2| {
        SameKeyPrefix(s1, i1, s2, i2);
      } else {
        SameKeyPrefix(s2, i2, s1, i1);
      }
    }
  }

  lemma PrefixCollides(s1: string, s2: string) returns (i1: string, i2: string)
    requires s1 + "_" <= s2
    ensures CacheKey(s1, i1) == CacheKey(s2, i2)
  {
    i1, i2 := s2[|s1| + 1..] + "_", "";
    assert s2 == s1 + "_" + s2[|s1| + 1..];
  }

  lemma SameKeyPrefix(s1: string, i1: string, s2: string, i2: string)
    requires |s1| <= |s2| && s1 + "_" + i1 == s2 + "_" + i2
    ensures s1 == s2 || s1 + "_" <= s2
  {
    var a, b := s1 + "_" + i1, s2 + "_" + i2;
    assert a[..|s1|] == s1 && b[..|s1|] == s2[..|s1|];
    assert a[|s1|] == '_';
    if |s1| == |s2| {
      assert s1 == s2[..|s1|] == s2;
    } else {
      assert b[|s1|] == s2[|s1|];
      assert s2[..|s1| + 1] == s1 + "_";
    }
  }

  lemma SameScopeInjective(scope: string, i1: string, i2: string)
    requires CacheKey(scope, i1) == CacheKey(scope, i2)
    ensures i1 == i2
  {
    KeyTail(scope, i1);
    KeyTail(scope, i2);
    assert (scope + "_" + i1)[|scope| + 1..] == i1;
    assert (scope + "_" + i2)[|scope| + 1..] == i2;
  }

  lemma Underscored(s1: string, s2: string)
    ensures s1 + "_" <= s2 ==> '_' in s2
  {
    if s1 + "_" <= s2 {
      assert s2[|s1|] == '_';
    }
  }

  /** Scopes without an underscore give distinct keys to distinct (scope, identity) pairs. */
  lemma PlainScopesInjective(s1: string, i1: string, s2: string, i2: string)
    requires '_' !in s1 && '_' !in s2
    requires CacheKey(s1, i1) == CacheKey(s2, i2)
    ensures s1 == s2 && i1 == i2
  {
    assert Collide(s1, s2);
    CollideIff(s1, s2);
    Underscored(s1, s2);
    Underscored(s2, s1);
    SameScopeInjective(s1, i1, i2);
  }

  // ----- one request through all the throttles -----

  datatype ThrottleClass = ThrottleClass(scope: string, rate: Rate)

  /** What each throttle of the view sees: its identity (None means it does not apply) and its instants. */
  datatype Visit = Visit(idents: seq<Option<string>>, timings: seq<Timing>)

  predicate Fits(classes: seq<ThrottleClass>, v: Visit) {
    |v.idents| == |v.timings| == |classes|
  }

  /** The store after the first i throttles have been asked. */
  function EntriesAfter(classes: seq<ThrottleClass>, entries: Entries, v: Visit, i: nat): Entries
    requires Fits(classes, v) && i <= |classes|
  {
    if i == 0 then entries else
    var before := EntriesAfter(classes, entries, v, i - 1);
    if v.idents[i - 1].None? then before else
    var key := CacheKey(classes[i - 1].scope, v.idents[i - 1].value);
    Put(before, key, SlotAfter(classes[i - 1].rate, SlotIn(before, key), v.timings[i - 1]))
  }

  /** The slot throttle i finds. */
  function SlotFor(classes: seq<ThrottleClass>, entries: Entries, v: Visit, i: nat): Slot
    requires Fits(classes, v) && i < |classes| && v.idents[i].Some?
  {
    SlotIn(EntriesAfter(classes, entries, v, i), CacheKey(classes[i].scope, v.idents[i].value))
  }

  /** One fresh throttle object: its answer, and its wait should it refuse. */
  method Ask(store: Store, rate: Rate, key: Option<string>, t: Timing) returns (result: bool, wait: Option<real>)
    modifies store
    ensures key.None? ==> result && store.entries == old(store.entries)
    ensures key.Some? ==>
              var slot := SlotIn(old(store.entries), key.value);
              && result == Allowed(rate, slot, t)
              && wait == WaitFor(rate, HistoryAfter(rate, slot, t), t.clock)
              && store.entries == Put(old(store.entries), key.value, SlotAfter(rate, slot, t))
  {
    hide WaitFor, Allowed, HistoryAfter, SlotAfter;
    var throttle := new SimpleRateThrottle(Some(rate));
    result := throttle.AllowRequest(store, key, t);
    wait := throttle.Wait();
  }

  function KeyFor(c: ThrottleClass, ident: Option<string>): Option<string> {
    if ident.None? then None else Some(CacheKey(c.scope, ident.value))
  }

  predicate Passes(classes: seq<ThrottleClass>, entries: Entries, v: Visit, i: nat)
    requires Fits(classes, v) && i < |classes|
  {
    v.idents[i].None? || Allowed(classes[i].rate, SlotFor(classes, entries, v, i), v.timings[i])
  }

  /** The wait that throttle i recommends once it has been asked. */
  function WaitOf(classes: seq<ThrottleClass>, entries: Entries, v: Visit, i: nat): Option<real>
    requires Fits(classes, v) && i < |classes| && v.idents[i].Some?
  {
    WaitFor(classes[i].rate, HistoryAfter(classes[i].rate, SlotFor(classes, entries, v, i), v.timings[i]), v.timings[i].clock)
  }

  predicate Served(classes: seq<ThrottleClass>, entries: Entries, v: Visit)
    requires Fits(classes, v)
  {
    forall i :: 0 <= i < |classes| ==> Passes(classes, entries, v, i)
  }

  datatype Outcome = Proceed | Throttled(index: nat, wait: Option<real>)

  /** The first refusal from throttle i on, with the wait of the throttle that refuses. */
  function OutcomeFrom(classes: seq<ThrottleClass>, entries: Entries, v: Visit, i: nat): Outcome
    requires Fits(classes, v) && i <= |classes|
    decreases |classes| - i
  {
    if i == |classes| then Proceed
    else if Passes(classes, entries, v, i) then OutcomeFrom(classes, entries, v, i + 1)
    else Throttled(i, WaitOf(classes, entries, v, i))
  }

  /** `check_throttles`: fresh throttle objects, all of them asked, then the first refusal raised. */
  method CheckThrottles(store: Store, classes: seq<ThrottleClass>, v: Visit) returns (outcome: Outcome)
    requires Fits(classes, v)
    modifies store
    ensures store.entries == EntriesAfter(classes, old(store.entries), v, |classes|)
    ensures outcome.Proceed? <==> Served(classes, old(store.entries), v)
    ensures outcome == OutcomeFrom(classes, old(store.entries), v, 0)
  {
    hide WaitFor, Allowed, HistoryAfter, SlotAfter, CacheKey, Put;
    ghost var entries := store.entries;
    var results: seq<bool> := [];
    var waits: seq<Option<real>> := [];
    while |results| < |classes|
      invariant |results| == |waits| <= |classes|
      invariant store.entries == EntriesAfter(classes, entries, v, |results|)
      invariant forall j :: 0 <= j < |results| ==> results[j] == Passes(classes, entries, v, j)
      invariant forall j :: 0 <= j < |results| && !results[j] ==>
        waits[j] == WaitOf(classes, entries, v, j)
    {
      var i := |results|;
      var result, wait := Ask(store, classes[i].rate, KeyFor(classes[i], v.idents[i]), v.timings[i]);
      assert result == Passes(classes, entries, v, i);
      results := results + [result];
      waits := waits + [wait];
    }
    for i := 0 to |classes|
      invariant forall j :: 0 <= j < i ==> results[j]
      invariant OutcomeFrom(classes, entries, v, 0) == OutcomeFrom(classes, entries, v, i)
    {
      if !results[i] {
        return Throttled(i, waits[i]);
      }
    }
    return Proceed;
  }

  // ----- the rate of the served requests -----

  /** No two throttles of the view can share a key. */
  ghost predicate Apart(classes: seq<ThrottleClass>) {
    forall i, j :: 0 <= i < j < |classes| ==> !Collide(classes[i].scope, classes[j].scope)
  }

  lemma PlainScopesApart(classes: seq<ThrottleClass>)
    requires forall i :: 0 <= i < |classes| ==> '_' !in classes[i].scope
    requires forall i, j :: 0 <= i < j < |classes| ==> classes[i].scope != classes[j].scope
    ensures Apart(classes)
  {
    forall i, j | 0 <= i < j < |classes| ensures !Collide(classes[i].scope, classes[j].scope) {
      CollideIff(classes[i].scope, classes[j].scope);
      Underscored(classes[i].scope, classes[j].scope);
      Underscored(classes[j].scope, classes[i].scope);
    }
  }

  predicate AllFit(classes: seq<ThrottleClass>, vs: seq<Visit>) {
    forall m :: 0 <= m < |vs| ==> Fits(classes, vs[m])
  }

  /** Requests to the view do not overlap, as each of its throttles sees them. */
  ghost predicate Orderly(classes: seq<ThrottleClass>, vs: seq<Visit>) {
    && AllFit(classes, vs)
    && (forall i :: 0 <= i < |classes| ==> Sequential(Column(classes, vs, i)))
  }

  /** The instants of throttle i over the run. */
  ghost function Column(classes: seq<ThrottleClass>, vs: seq<Visit>, i: nat): seq<Timing>
    requires i < |classes| && AllFit(classes, vs)
  {
    seq(|vs|, m requires 0 <= m < |vs| && Fits(classes, vs[m]) => vs[m].timings[i])
  }

  function EntriesAt(classes: seq<ThrottleClass>, vs: seq<Visit>, k: nat): Entries
    requires k <= |vs| && AllFit(classes, vs)
  {
    if k == 0 then map[] else EntriesAfter(classes, EntriesAt(classes, vs, k - 1), vs[k - 1], |classes|)
  }

  /** When the first k requests passed throttle i under this identity, newest first. */
  function PassTimes(classes: seq<ThrottleClass>, vs: seq<Visit>, i: nat, ident: string, k: nat): seq<real>
    requires i < |classes| && k <= |vs| && AllFit(classes, vs)
  {
    if k == 0 then []
    else
      var v, rest := vs[k - 1], PassTimes(classes, vs, i, ident, k - 1);
      if v.idents[i] == Some(ident) && Passes(classes, EntriesAt(classes, vs, k - 1), v, i)
      then [v.timings[i].clock] + rest else rest
  }

  /** When the first k requests with this identity for throttle i were served, newest first. */
  function ServedTimes(classes: seq<ThrottleClass>, vs: seq<Visit>, i: nat, ident: string, k: nat): seq<real>
    requires i < |classes| && k <= |vs| && AllFit(classes, vs)
  {
    if k == 0 then []
    else
      var v, rest := vs[k - 1], ServedTimes(classes, vs, i, ident, k - 1);
      if v.idents[i] == Some(ident) && Served(classes, EntriesAt(classes, vs, k - 1), v)
      then [v.timings[i].clock] + rest else rest
  }

  lemma KeysApart(classes: seq<ThrottleClass>, i: nat, j: nat, di: string, dj: string)
    requires Apart(classes) && i < |classes| && j < |classes| && i != j
    ensures CacheKey(classes[i].scope, di) != CacheKey(classes[j].scope, dj)
  {
    if i < j {
      assert !Collide(classes[i].scope, classes[j].scope);
    } else {
      assert !Collide(classes[j].scope, classes[i].scope);
    }
  }

  /** The first j throttles change the slot of throttle i and one identity only by asking throttle i for it. */
  lemma {:induction false} OneThrottleOneKey(classes: seq<ThrottleClass>, entries: Entries, v: Visit,
                                            i: nat, ident: string, j: nat)
    requires Apart(classes) && Fits(classes, v) && i < |classes| && j <= |classes|
    ensures var slot := SlotIn(entries, CacheKey(classes[i].scope, ident));
            SlotIn(EntriesAfter(classes, entries, v, j), CacheKey(classes[i].scope, ident))
            == if i < j && v.idents[i] == Some(ident) then SlotAfter(classes[i].rate, slot, v.timings[i]) else slot
  {
    hide CacheKey, SlotAfter, Apart;
    if j > 0 {
      OneThrottleOneKey(classes, entries, v, i, ident, j - 1);
      if v.idents[j - 1].Some? {
        if j - 1 != i {
          KeysApart(classes, i, j - 1, ident, v.idents[j - 1].value);
        } else if v.idents[i].value != ident {
          OtherIdent(classes[i].scope, ident, v.idents[i].value);
        } else {
          PutGet(EntriesAfter(classes, entries, v, i), CacheKey(classes[i].scope, ident), classes[i].rate, v.timings[i]);
        }
      }
    }
  }

  lemma PutGet(entries: Entries, key: string, rate: Rate, t: Timing)
    ensures SlotIn(Put(entries, key, SlotAfter(rate, SlotIn(entries, key), t)), key) == SlotAfter(rate, SlotIn(entries, key), t)
  {
  }

  lemma OtherIdent(scope: string, i1: string, i2: string)
    requires i1 != i2
    ensures CacheKey(scope, i1) != CacheKey(scope, i2)
  {
    if CacheKey(scope, i1) == CacheKey(scope, i2) {
      SameScopeInjective(scope, i1, i2);
    }
  }

  /**
   A request decides for throttle i on that throttle's own slot, and leaves it as if
   throttle i alone had been asked: an admission is recorded whether or not another
   throttle refuses the request.
   */
  lemma VisitOnKey(classes: seq<ThrottleClass>, entries: Entries, v: Visit, i: nat, ident: string)
    requires Apart(classes) && Fits(classes, v) && i < |classes|
    ensures var key, rate := CacheKey(classes[i].scope, ident), classes[i].rate;
            var slot, after := SlotIn(entries, key), SlotIn(EntriesAfter(classes, entries, v, |classes|), key);
            if v.idents[i] == Some(ident)
            then (Passes(classes, entries, v, i) <==> Allowed(rate, slot, v.timings[i]))
                 && after == SlotAfter(rate, slot, v.timings[i])
            else after == slot
  {
    hide CacheKey, SlotAfter, Apart, Allowed;
    OneThrottleOneKey(classes, entries, v, i, ident, |classes|);
    OneThrottleOneKey(classes, entries, v, i, ident, i);
  }

  lemma {:induction false} ViewRefines(classes: seq<ThrottleClass>, vs: seq<Visit>, i: nat, ident: string, k: nat, time: real)
    requires Apart(classes) && Orderly(classes, vs) && i < |classes| && k <= |vs|
    requires classes[i].rate.duration > 0.0 && classes[i].rate.limit >= 0
    requires k > 0 ==> vs[k - 1].timings[i].write <= time
    ensures var log := PassTimes(classes, vs, i, ident, k);
            && Refines(classes[i].rate, SlotIn(EntriesAt(classes, vs, k), CacheKey(classes[i].scope, ident)), log, time)
            && Bounded(classes[i].rate, log)
  {
    hide CacheKey, Apart, Refines, Bounded, SlotAfter, EntriesAfter, Passes, Sequential, NewestFirst;
    var rate, key := classes[i].rate, CacheKey(classes[i].scope, ident);
    if k == 0 {
      NothingRefines(rate, time);
      NothingBounded(rate);
    } else {
      var v, entries := vs[k - 1], EntriesAt(classes, vs, k - 1);
      var t, slot, log := v.timings[i], SlotIn(entries, key), PassTimes(classes, vs, i, ident, k - 1);
      assert Column(classes, vs, i)[k - 1] == t;
      assert k > 1 ==> Column(classes, vs, i)[k - 2] == vs[k - 2].timings[i];
      SequentialAt(Column(classes, vs, i), k - 1);
      ViewRefines(classes, vs, i, ident, k - 1, t.read);
      VisitOnKey(classes, entries, v, i, ident);
      OneRequest(rate, slot, log, t.read, t);
      RefinesLater(rate, slot, log, t.read, time);
      RefinesLater(rate, SlotAfter(rate, slot, t), LogAfter(rate, slot, log, t), t.write, time);
    }
  }

  lemma NothingBounded(rate: Rate)
    requires rate.limit >= 0
    ensures Bounded(rate, [])
  {
  }

  lemma OneRequest(rate: Rate, slot: Slot, log: seq<real>, time: real, t: Timing)
    requires rate.duration > 0.0 && Ordered(t) && time <= t.read
    requires Refines(rate, slot, log, time) && Bounded(rate, log)
    ensures Refines(rate, SlotAfter(rate, slot, t), LogAfter(rate, slot, log, t), t.write)
    ensures Bounded(rate, LogAfter(rate, slot, log, t))
  {
    hide Bounded, SlotAfter, InWindow, Allowed;
    RequestRefines(rate, slot, log, time, t);
    if Allowed(rate, slot, t) {
      GrantKeepsBound(rate, log, t.clock);
    }
  }

  /** Being served means passing every throttle. */
  lemma {:induction false} ServedArePasses(classes: seq<ThrottleClass>, vs: seq<Visit>, i: nat, ident: string, k: nat, lo: real, hi: real)
    requires Orderly(classes, vs) && i < |classes| && k <= |vs|
    ensures InWindow(ServedTimes(classes, vs, i, ident, k), lo, hi) <= InWindow(PassTimes(classes, vs, i, ident, k), lo, hi)
  {
    hide EntriesAt, Passes;
    if k > 0 {
      ServedArePasses(classes, vs, i, ident, k - 1, lo, hi);
      InWindowConcat([vs[k - 1].timings[i].clock], ServedTimes(classes, vs, i, ident, k - 1), lo, hi);
      InWindowConcat([vs[k - 1].timings[i].clock], PassTimes(classes, vs, i, ident, k - 1), lo, hi);
    }
  }

  /** The requests a view serves respect the rate of each of its throttles, for each identity. */
  lemma ServedRespectEveryRate(classes: seq<ThrottleClass>, vs: seq<Visit>, i: nat, ident: string)
    requires Apart(classes) && Orderly(classes, vs) && i < |classes|
    requires classes[i].rate.duration > 0.0 && classes[i].rate.limit >= 0
    ensures Bounded(classes[i].rate, ServedTimes(classes, vs, i, ident, |vs|))
  {
    hide Apart, InWindow, Sequential;
    var rate := classes[i].rate;
    var time := if vs == [] then 0.0 else vs[|vs| - 1].timings[i].write;
    ViewRefines(classes, vs, i, ident, |vs|, time);
    forall x: real ensures WithinLimit(rate, ServedTimes(classes, vs, i, ident, |vs|), x) {
      assert WithinLimit(rate, PassTimes(classes, vs, i, ident, |vs|), x);
      ServedArePasses(classes, vs, i, ident, |vs|, x - rate.duration, x);
    }
  }

  /** Whatever the orderly run, every throttle's rate holds for the served requests of every identity. */
  ghost predicate RatesKept(classes: seq<ThrottleClass>) {
    forall vs, i: nat, ident :: Orderly(classes, vs) && i < |classes| ==>
      Bounded(classes[i].rate, ServedTimes(classes, vs, i, ident, |vs|))
  }

  predicate Proper(rate: Rate) {
    rate.limit >= 1 && rate.duration > 0.0
  }

  function Pair(s1: string, r1: Rate, s2: string, r2: Rate): seq<ThrottleClass> {
    [ThrottleClass(s1, r1), ThrottleClass(s2, r2)]
  }

  /** Two scopes can share a view, whatever their rates, exactly when their keys cannot collide. */
  lemma RatesKeptIffApart(s1: string, s2: string)
    ensures (forall r1, r2 :: Proper(r1) && Proper(r2) ==> RatesKept(Pair(s1, r1, s2, r2))) <==> !Collide(s1, s2)
  {
    if Collide(s1, s2) {
      var i1, i2 :| CacheKey(s1, i1) == CacheKey(s2, i2);
      SharedKeyBreaksTheRate(s1, i1, s2, i2);
    } else {
      forall r1, r2 | Proper(r1) && Proper(r2) ensures RatesKept(Pair(s1, r1, s2, r2)) {
        var classes := Pair(s1, r1, s2, r2);
        forall vs, i: nat, ident | Orderly(classes, vs) && i < |classes|
          ensures Bounded(classes[i].rate, ServedTimes(classes, vs, i, ident, |vs|))
        {
          ServedRespectEveryRate(classes, vs, i, ident);
        }
      }
    }
  }

  function At(time: real): Timing {
    Timing(time, time, time)
  }

  /** A fast throttle on a shared key lets the slow one's history expire early. */
  lemma SharedKeyBreaksTheRate(s1: string, i1: string, s2: string, i2: string)
    requires CacheKey(s1, i1) == CacheKey(s2, i2)
    ensures Proper(Rate(1, 60.0)) && Proper(Rate(2, 1.0))
    ensures !RatesKept(Pair(s1, Rate(1, 60.0), s2, Rate(2, 1.0)))
  {
    hide CacheKey, InWindow, Bounded;
    var slow, fast := Rate(1, 60.0), Rate(2, 1.0);
    var classes := Pair(s1, slow, s2, fast);
    var v0 := Visit([Some(i1), Some(i2)], [At(0.0), At(0.0)]);
    var v1 := Visit([Some(i1), Some(i2)], [At(2.0), At(2.0)]);
    var vs := [v0, v1];
    SharedRunIsOrderly(classes, vs);
    hide Orderly, Column, Sequential, Passes, SlotIn;
    SharedVisit(classes, i1, i2, map[], v0, 0.0);
    SharedVisit(classes, i1, i2, EntriesAfter(classes, map[], v0, 2), v1, 2.0);
    assert EntriesAt(classes, vs, 0) == map[];
    assert EntriesAt(classes, vs, 1) == EntriesAfter(classes, map[], v0, 2);
    assert ServedTimes(classes, vs, 0, i1, 0) == [];
    assert ServedTimes(classes, vs, 0, i1, 1) == [0.0];
    assert ServedTimes(classes, vs, 0, i1, 2) == [2.0, 0.0];
    InWindowAll([2.0, 0.0], -58.0, 2.0);
    TwoIsTooMany(slow, [2.0, 0.0], 2.0);
  }

  lemma SharedRunIsOrderly(classes: seq<ThrottleClass>, vs: seq<Visit>)
    requires |classes| == 2 && |vs| == 2
    requires forall m :: 0 <= m < 2 ==> |vs[m].idents| == 2 && vs[m].timings == [At(2.0 * m as real), At(2.0 * m as real)]
    ensures Orderly(classes, vs)
  {
    forall i | 0 <= i < 2 ensures Sequential(Column(classes, vs, i)) {
      assert Column(classes, vs, i) == [At(0.0), At(2.0)];
    }
  }

  lemma TwoIsTooMany(rate: Rate, log: seq<real>, x: real)
    requires InWindow(log, x - rate.duration, x) > rate.limit
    ensures !Bounded(rate, log)
  {
    assert !WithinLimit(rate, log, x);
  }

  /** A visit that finds the shared key empty or expired is served, and leaves it to expire a second later. */
  lemma SharedVisit(classes: seq<ThrottleClass>, i1: string, i2: string, entries: Entries, v: Visit, time: real)
    requires |classes| == 2 && classes[0].rate == Rate(1, 60.0) && classes[1].rate == Rate(2, 1.0)
    requires CacheKey(classes[0].scope, i1) == CacheKey(classes[1].scope, i2)
    requires v == Visit([Some(i1), Some(i2)], [At(time), At(time)])
    requires LiveHistory(SlotIn(entries, CacheKey(classes[0].scope, i1)), time) == []
    ensures Served(classes, entries, v)
    ensures SlotIn(EntriesAfter(classes, entries, v, 2), CacheKey(classes[0].scope, i1)) == Some(Entry([time, time], time + 1.0))
  {
    hide CacheKey;
    var key := CacheKey(classes[0].scope, i1);
    var e1 := EntriesAfter(classes, entries, v, 1);
    assert EntriesAfter(classes, entries, v, 0) == entries;
    assert Kept(classes[0].rate, [], time) == [];
    var first := SlotAfter(classes[0].rate, SlotIn(entries, key), At(time));
    assert [time] + [] == [time];
    assert first == Some(Entry([time], time + 60.0));
    assert e1 == Put(entries, key, first);
    assert Kept(classes[1].rate, [time], time) == [time];
    assert [time] + [time] == [time, time];
    assert Passes(classes, entries, v, 0) && Passes(classes, entries, v, 1);
  }

  // ----- what a refused request is told -----

  /** The outcome is a refusal by the first throttle that does not let the request pass, if there is one. */
  lemma {:induction false} OutcomeIsFirstRefusal(classes: seq<ThrottleClass>, entries: Entries, v: Visit, i: nat)
    requires Fits(classes, v) && i <= |classes|
    ensures var o := OutcomeFrom(classes, entries, v, i);
            if o.Proceed? then forall j :: i <= j < |classes| ==> Passes(classes, entries, v, j)
            else i <= o.index < |classes| && !Passes(classes, entries, v, o.index)
                 && v.idents[o.index].Some? && o.wait == WaitOf(classes, entries, v, o.index)
                 && forall j :: i <= j < o.index ==> Passes(classes, entries, v, j)
    decreases |classes| - i
  {
    hide Allowed, SlotFor, WaitOf;
    if i < |classes| {
      OutcomeIsFirstRefusal(classes, entries, v, i + 1);
    }
  }

  /** The wait of a throttle that refuses in an orderly run, read off the log of its own admissions. */
  lemma RefusingThrottleWait(classes: seq<ThrottleClass>, vs: seq<Visit>, k: nat, i: nat, ident: string) returns (w: real)
    requires Apart(classes) && Orderly(classes, vs) && k < |vs| && i < |classes| && Proper(classes[i].rate)
    requires vs[k].idents[i] == Some(ident) && !Passes(classes, EntriesAt(classes, vs, k), vs[k], i)
    ensures WaitOf(classes, EntriesAt(classes, vs, k), vs[k], i) == Some(w)
    ensures 0.0 < w <= classes[i].rate.duration
    ensures var log := PassTimes(classes, vs, i, ident, k);
            && |log| >= classes[i].rate.limit
            && vs[k].timings[i].clock + w == log[classes[i].rate.limit - 1] + classes[i].rate.duration
  {
    hide CacheKey, Apart, Passes, EntriesAfter, Sequential, WaitFor, HistoryAfter, Allowed, NewestFirst, Bounded;
    var rate, key, t := classes[i].rate, CacheKey(classes[i].scope, ident), vs[k].timings[i];
    var entries := EntriesAt(classes, vs, k);
    var slot, log := SlotIn(entries, key), PassTimes(classes, vs, i, ident, k);
    assert Column(classes, vs, i)[k] == t;
    assert k > 0 ==> Column(classes, vs, i)[k - 1] == vs[k - 1].timings[i];
    SequentialAt(Column(classes, vs, i), k);
    ViewRefines(classes, vs, i, ident, k, t.read);
    VisitOnKey(classes, entries, vs[k], i, ident);
    OneThrottleOneKey(classes, entries, vs[k], i, ident, i);
    w := DenialWait(rate, slot, log, t.read, t);
  }

  /**
   The wait is present, positive, at most the duration, and ends exactly when the oldest
   of the `limit` latest admissions leaves the window; a duration in whole seconds gives
   a Retry-After header in 1..duration.
   */
  ghost predicate ExactWait(rate: Rate, log: seq<real>, clock: real, wait: Option<real>) {
    && 1 <= rate.limit <= |log|
    && wait.Some?
    && 0.0 < wait.value <= rate.duration
    && clock + wait.value == log[rate.limit - 1] + rate.duration
    && (rate.duration.Floor as real == rate.duration ==>
          RetryAfter(wait).Some? && 1 <= RetryAfter(wait).value <= rate.duration.Floor)
  }

  /**
   What a request refused in an orderly run is told: the first throttle that refuses it
   gives the exact wait on the log of its own admissions for this identity.
   */
  lemma RefusalIsExact(classes: seq<ThrottleClass>, vs: seq<Visit>, k: nat)
    requires Apart(classes) && Orderly(classes, vs) && k < |vs|
    ensures var entries, v := EntriesAt(classes, vs, k), vs[k];
            var o := OutcomeFrom(classes, entries, v, 0);
            && (o.Proceed? <==> Served(classes, entries, v))
            && (o.Throttled? ==>
                  && o.index < |classes| && !Passes(classes, entries, v, o.index) && v.idents[o.index].Some?
                  && (forall j :: 0 <= j < o.index ==> Passes(classes, entries, v, j))
                  && (Proper(classes[o.index].rate) ==>
                        ExactWait(classes[o.index].rate, PassTimes(classes, vs, o.index, v.idents[o.index].value, k),
                                  v.timings[o.index].clock, o.wait)))
  {
    hide Passes, WaitOf, PassTimes, Apart, Sequential, RetryAfter;
    var o := OutcomeFrom(classes, EntriesAt(classes, vs, k), vs[k], 0);
    OutcomeIsFirstRefusal(classes, EntriesAt(classes, vs, k), vs[k], 0);
    if o.Throttled? && Proper(classes[o.index].rate) {
      var w := RefusingThrottleWait(classes, vs, k, o.index, vs[k].idents[o.index].value);
      if classes[o.index].rate.duration.Floor as real == classes[o.index].rate.duration {
        RetryAfterRange(w, classes[o.index].rate.duration.Floor);
      }
    }
  }

  // ----- Retry-After -----

  /** The exception's wait: the recommended wait rounded up. */
  function RoundedWait(wait: Option<real>): Option<int> {
    match wait
    case None => None
    case Some(w) => Some(if w.Floor as real == w then w.Floor else w.Floor + 1)
  }

  /** The header is set when the exception's wait is truthy. */
  function RetryAfter(wait: Option<real>): Option<int> {
    var rounded := RoundedWait(wait);
    if rounded.Some? && rounded.value != 0 then rounded else None
  }

  /** A positive wait of at most d seconds always gives a header, a whole number of seconds in 1..d, rounded up. */
  lemma RetryAfterRange(v: real, d: nat)
    requires 0.0 < v <= d as real
    ensures RetryAfter(Some(v)).Some?
    ensures var n := RetryAfter(Some(v)).value; 1 <= n <= d && n as real - 1.0 < v <= n as real
  {
  }

  /** After a denial the header is present, in 1..d, and a client that waits that long is admitted. */
  lemma RetryAfterIsHonoured(rate: Rate, d: nat, slot: Slot, log: seq<real>, time: real, denied: Timing, retry: Timing)
    returns (n: int)
    requires rate.limit >= 1 && d >= 1 && rate.duration == d as real
    requires Ordered(denied) && Ordered(retry) && time <= denied.read <= retry.read
    requires Refines(rate, slot, log, time) && !Allowed(rate, slot, denied)
    ensures RetryAfter(WaitFor(rate, HistoryAfter(rate, slot, denied), denied.clock)) == Some(n)
    ensures 1 <= n <= d
    ensures retry.clock >= denied.clock + n as real ==> Allowed(rate, slot, retry)
    ensures retry.clock <= denied.clock + (n - 1) as real ==> !Allowed(rate, slot, retry)
  {
    hide Allowed, HistoryAfter, Refines, WaitFor;
    var v := DenialWait(rate, slot, log, time, denied);
    RetryAfterRange(v, d);
    n := RetryAfter(Some(v)).value;
    RetryIsExact(rate, slot, log, time, denied, retry, v);
  }
}
