/**
 Any number of requests on one key, interleaved at their await points: the store read,
 the clock reading with the decision, and the store write are separate steps, and any
 step of any other request may come between them.
 */
module ThrottleConcurrent {
  import opened Wrappers
  import opened SlidingWindow
  import opened Throttle
  import opened ThrottleRuns

  /** Where a request stands: it holds the history it read, or the one it will write, or is over. */
  datatype Phase = Reading(history: seq<real>) | Writing(history: seq<real>) | Done(admitted: bool)

  /** `log` holds every admission ever granted, newest first. */
  datatype World = World(clock: real, slot: Slot, phases: map<nat, Phase>, log: seq<real>)

  datatype Event = Read(id: nat, at: real) | Decide(id: nat, at: real) | Write(id: nat, at: real)

  datatype Run = Start | Then(before: Run, event: Event)

  predicate Enabled(w: World, e: Event) {
    && w.clock <= e.at
    && match e
       case Read(id, _) => id !in w.phases
       case Decide(id, _) => id in w.phases && w.phases[id].Reading?
       case Write(id, _) => id in w.phases && w.phases[id].Writing?
  }

  /** One step of one request; a step that is not enabled does not happen. */
  function Step(rate: Rate, w: World, e: Event): World {
    if !Enabled(w, e) then w else
    match e
    case Read(id, at) =>
      w.(clock := at, phases := w.phases[id := Reading(LiveHistory(w.slot, at))])
    case Decide(id, at) =>
      var kept := Kept(rate, w.phases[id].history, at);
      if Allows(rate, kept)
      then w.(clock := at, phases := w.phases[id := Writing([at] + kept)], log := [at] + w.log)
      else w.(clock := at, phases := w.phases[id := Done(false)])
    case Write(id, at) =>
      w.(clock := at, phases := w.phases[id := Done(true)], slot := Stored(rate, w.phases[id].history, at))
  }

  function WorldOf(rate: Rate, run: Run): World {
    match run
    case Start => World(0.0, None, map[], [])
    case Then(before, event) => Step(rate, WorldOf(rate, before), event)
  }

  // ----- what every interleaving keeps -----

  /** A newest-first history of at most `limit` times that belong to distinct real admissions. */
  ghost predicate Truthful(rate: Rate, history: seq<real>, w: World) {
    && NewestFirst(history)
    && (history != [] ==> |history| <= rate.limit && history[0] <= w.clock)
    && multiset(history) <= multiset(w.log)
  }

  ghost predicate AllTruthful(rate: Rate, w: World) {
    && (w.slot.Some? ==> Truthful(rate, w.slot.value.history, w))
    && (forall id :: id in w.phases && !w.phases[id].Done? ==> Truthful(rate, w.phases[id].history, w))
  }

  lemma TruthfulLater(rate: Rate, history: seq<real>, w: World, w': World)
    requires Truthful(rate, history, w) && w.clock <= w'.clock
    requires w'.log == w.log || (w'.log != [] && w'.log[1..] == w.log)
    ensures Truthful(rate, history, w')
  {
    if w'.log != w.log {
      assert w'.log == [w'.log[0]] + w.log;
    }
  }

  lemma TruthfulPrefix(rate: Rate, history: seq<real>, kept: seq<real>, w: World)
    requires Truthful(rate, history, w) && kept <= history
    ensures Truthful(rate, kept, w)
  {
    assert history == kept + history[|kept|..];
    assert multiset(history) == multiset(kept) + multiset(history[|kept|..]);
  }

  lemma TruthfulGrant(rate: Rate, kept: seq<real>, w: World, w': World)
    requires Truthful(rate, kept, w) && Allows(rate, kept)
    requires w.clock <= w'.clock && w'.log == [w'.clock] + w.log
    ensures Truthful(rate, [w'.clock] + kept, w')
  {
  }

  lemma StepKeepsTruth(rate: Rate, w: World, e: Event)
    requires AllTruthful(rate, w)
    ensures AllTruthful(rate, Step(rate, w, e))
  {
    hide Truthful, Kept;
    var w' := Step(rate, w, e);
    if Enabled(w, e) {
      AllTruthfulLater(rate, w, w');
      EmptyIsTruthful(rate, w');
      if e.Decide? {
        DecisionIsTruthful(rate, w, w.phases[e.id].history, e.at, w');
      }
    }
  }

  lemma AllTruthfulLater(rate: Rate, w: World, w': World)
    requires AllTruthful(rate, w) && w.clock <= w'.clock
    requires w'.log == w.log || (w'.log != [] && w'.log[1..] == w.log)
    ensures w.slot.Some? ==> Truthful(rate, w.slot.value.history, w')
    ensures forall id :: id in w.phases && !w.phases[id].Done? ==> Truthful(rate, w.phases[id].history, w')
  {
    hide Truthful;
    if w.slot.Some? {
      TruthfulLater(rate, w.slot.value.history, w, w');
    }
    forall id | id in w.phases && !w.phases[id].Done? ensures Truthful(rate, w.phases[id].history, w') {
      TruthfulLater(rate, w.phases[id].history, w, w');
    }
  }

  lemma DecisionIsTruthful(rate: Rate, w: World, history: seq<real>, at: real, w': World)
    requires Truthful(rate, history, w) && w.clock <= at == w'.clock
    requires Allows(rate, Kept(rate, history, at)) ==> w'.log == [at] + w.log
    ensures Allows(rate, Kept(rate, history, at)) ==> Truthful(rate, [at] + Kept(rate, history, at), w')
  {
    var kept := Kept(rate, history, at);
    KeptIsPrefix(rate, history, at);
    TruthfulPrefix(rate, history, kept, w);
    if Allows(rate, kept) {
      TruthfulGrant(rate, kept, w, w');
    }
  }

  lemma KeptIsPrefix(rate: Rate, history: seq<real>, now: real)
    ensures Kept(rate, history, now) <= history
  {
  }

  lemma EmptyIsTruthful(rate: Rate, w: World)
    ensures Truthful(rate, [], w)
  {
  }

  /** In every reachable state every stored, read or pending history is truthful. */
  lemma {:induction false} HistoriesAreTruthful(rate: Rate, run: Run)
    ensures AllTruthful(rate, WorldOf(rate, run))
  {
    match run
    case Start =>
    case Then(before, event) =>
      HistoriesAreTruthful(rate, before);
      StepKeepsTruth(rate, WorldOf(rate, before), event);
  }

  lemma Without(s: seq<real>, x: real) returns (rest: seq<real>)
    requires x in s
    ensures multiset(s) == multiset(rest) + multiset{x} && |s| == |rest| + 1
    ensures forall j :: 0 <= j < |rest| ==> rest[j] in s
  {
    var p :| 0 <= p < |s| && s[p] == x;
    rest := s[..p] + s[p + 1..];
    assert s == s[..p] + ([x] + s[p + 1..]);
  }

  lemma CancelOne(a: multiset<real>, b: multiset<real>, x: real)
    requires a + multiset{x} <= multiset{x} + b
    ensures a <= b
  {
    forall y ensures a[y] <= b[y] {
      assert (a + multiset{x})[y] <= (multiset{x} + b)[y];
    }
  }

  /** Distinct members of the log that lie in the window are counted in it. */
  lemma {:induction false} SubBag(history: seq<real>, log: seq<real>, lo: real, hi: real)
    requires multiset(history) <= multiset(log)
    requires forall j :: 0 <= j < |history| ==> lo < history[j] <= hi
    ensures |history| <= InWindow(log, lo, hi)
    decreases |log|
  {
    if log == [] {
      assert |multiset(history)| == |history|;
      assert multiset(history) <= multiset{};
    } else {
      assert log == [log[0]] + log[1..];
      if log[0] in history {
        var rest := Without(history, log[0]);
        assert multiset(log) == multiset{log[0]} + multiset(log[1..]);
        CancelOne(multiset(rest), multiset(log[1..]), log[0]);
        SubBag(rest, log[1..], lo, hi);
      } else {
        SubBag(history, log[1..], lo, hi);
      }
    }
  }

  /** The requests that have been admitted, whether or not they have written yet. */
  function AdmittedIds(w: World): set<nat> {
    set id | id in w.phases && (w.phases[id].Writing? || w.phases[id] == Done(true))
  }

  /** Under every interleaving there is one logged admission for each admitted request. */
  lemma {:induction false} LogCountsAdmissions(rate: Rate, run: Run)
    ensures |AdmittedIds(WorldOf(rate, run))| == |WorldOf(rate, run).log|
  {
    match run
    case Start =>
    case Then(before, e) =>
      LogCountsAdmissions(rate, before);
      var w, w' := WorldOf(rate, before), WorldOf(rate, run);
      hide Kept, LiveHistory, WorldOf;
      assert w' == Step(rate, w, e) by {
        StepOf(rate, before, e);
      }
      if w'.log == w.log {
        assert AdmittedIds(w') == AdmittedIds(w);
      } else {
        assert AdmittedIds(w') == AdmittedIds(w) + {e.id};
      }
  }

  lemma StepOf(rate: Rate, before: Run, e: Event)
    ensures WorldOf(rate, Then(before, e)) == Step(rate, WorldOf(rate, before), e)
  {
  }

  /**
   However requests interleave, a decision that logs no admission is final and justified
   by `limit` true admissions in the duration before it, and its recommended wait is in
   (0, duration].
   */
  lemma DenialIsJustified(rate: Rate, run: Run, id: nat, at: real)
    requires rate.duration > 0.0 && rate.limit >= 1
    requires Enabled(WorldOf(rate, run), Decide(id, at))
    requires Step(rate, WorldOf(rate, run), Decide(id, at)).log == WorldOf(rate, run).log
    ensures Step(rate, WorldOf(rate, run), Decide(id, at)).phases[id] == Done(false)
    ensures InWindow(WorldOf(rate, run).log, at - rate.duration, at) >= rate.limit
    ensures var kept := Kept(rate, WorldOf(rate, run).phases[id].history, at);
            && |kept| == rate.limit
            && WaitFor(rate, kept, at).Some?
            && 0.0 < WaitFor(rate, kept, at).value <= rate.duration
  {
    var w := WorldOf(rate, run);
    HistoriesAreTruthful(rate, run);
    DeniedHistory(rate, w, w.phases[id].history, at);
  }

  lemma FullKept(rate: Rate, w: World, kept: seq<real>, at: real)
    requires rate.duration > 0.0 && rate.limit >= 1 && w.clock <= at
    requires Truthful(rate, kept, w) && |kept| >= rate.limit && kept[|kept| - 1] > at - rate.duration
    ensures InWindow(w.log, at - rate.duration, at) >= rate.limit
    ensures |kept| == rate.limit
    ensures WaitFor(rate, kept, at).Some? && 0.0 < WaitFor(rate, kept, at).value <= rate.duration
  {
    forall j | 0 <= j < |kept| ensures at - rate.duration < kept[j] <= at {
      assert kept[|kept| - 1] <= kept[j] <= kept[0];
    }
    SubBag(kept, w.log, at - rate.duration, at);
    assert rate.limit - |kept| + 1 == 1;
  }

  lemma DeniedHistory(rate: Rate, w: World, history: seq<real>, at: real)
    requires rate.duration > 0.0 && rate.limit >= 1 && w.clock <= at
    requires Truthful(rate, history, w) && !Allows(rate, Kept(rate, history, at))
    ensures InWindow(w.log, at - rate.duration, at) >= rate.limit
    ensures var kept := Kept(rate, history, at);
            && |kept| == rate.limit
            && WaitFor(rate, kept, at).Some?
            && 0.0 < WaitFor(rate, kept, at).value <= rate.duration
  {
    hide Truthful, WaitFor;
    var kept := Kept(rate, history, at);
    TruthfulPrefix(rate, history, kept, w);
    assert kept[|kept| - 1] > at - rate.duration;
    FullKept(rate, w, kept, at);
  }

  // ----- the bound, and exactly how much overlap it survives -----

  function InFlight(w: World): set<nat> {
    set id | id in w.phases && !w.phases[id].Done?
  }

  /** At no point of the run are more than c requests in flight. */
  ghost predicate AtMost(rate: Rate, run: Run, c: int) {
    && |InFlight(WorldOf(rate, run))| <= c
    && (run.Then? ==> AtMost(rate, run.before, c))
  }

  /** The history a lone reader holds still says all that the slot says. */
  ghost predicate Current(slot: Slot, history: seq<real>, clock: real) {
    match slot
    case None => history == []
    case Some(e) => history == e.history || (history == [] && e.expiresAt <= clock)
  }

  /** Writing this history now would leave a slot that refines the log. */
  ghost predicate Ready(rate: Rate, history: seq<real>, w: World) {
    history != [] && Refines(rate, Stored(rate, history, w.clock), w.log, w.clock)
  }

  /** What holds between steps when at most one request is in flight. */
  ghost predicate Alone(rate: Rate, w: World) {
    && Bounded(rate, w.log)
    && (InFlight(w) == {} ==> Refines(rate, w.slot, w.log, w.clock))
    && (forall id :: id in w.phases ==>
          match w.phases[id]
          case Reading(h) => Refines(rate, w.slot, w.log, w.clock) && Current(w.slot, h, w.clock)
          case Writing(h) => Ready(rate, h, w)
          case Done(_) => true)
  }

  lemma OnlyOne(s: set<nat>, a: nat, b: nat)
    requires |s| <= 1 && a in s && b in s
    ensures a == b
  {
    if a != b {
      assert {a, b} <= s;
      Subset({a, b}, s);
    }
  }

  lemma {:induction false} Subset(a: set<nat>, b: set<nat>)
    requires a <= b
    ensures |a| <= |b|
  {
    if a != {} {
      var x :| x in a;
      Subset(a - {x}, b - {x});
    }
  }

  lemma ReadAlone(rate: Rate, w: World, id: nat, at: real)
    requires Alone(rate, w) && Enabled(w, Read(id, at))
    requires |InFlight(Step(rate, w, Read(id, at)))| <= 1
    ensures Alone(rate, Step(rate, w, Read(id, at)))
  {
    hide Refines, Bounded, NewestFirst;
    var w' := Step(rate, w, Read(id, at));
    assert id in InFlight(w');
    forall other | other in w.phases ensures w.phases[other].Done? {
      if !w.phases[other].Done? {
        assert other in InFlight(w');
        OnlyOne(InFlight(w'), other, id);
      }
    }
    assert InFlight(w) == {};
    RefinesLater(rate, w.slot, w.log, w.clock, at);
    assert Current(w.slot, LiveHistory(w.slot, at), at);
  }

  lemma DecideAlone(rate: Rate, w: World, id: nat, at: real)
    requires rate.duration > 0.0
    requires Alone(rate, w) && Enabled(w, Decide(id, at)) && |InFlight(w)| <= 1
    ensures Alone(rate, Step(rate, w, Decide(id, at)))
  {
    hide Refines, Bounded, NewestFirst, Current, Ready, Kept;
    var w' := Step(rate, w, Decide(id, at));
    var history := w.phases[id].history;
    forall other | other in w.phases && other != id ensures w.phases[other].Done? {
      if other in InFlight(w) {
        assert id in InFlight(w);
        OnlyOne(InFlight(w), other, id);
      }
    }
    RefinesLater(rate, w.slot, w.log, w.clock, at);
    LoneDecision(rate, w.slot, w.log, w.clock, history, at);
    if Allows(rate, Kept(rate, history, at)) {
      ReadyIntro(rate, [at] + Kept(rate, history, at), w');
      assert id in InFlight(w');
    }
  }

  lemma ReadyIntro(rate: Rate, history: seq<real>, w: World)
    requires history != [] && Refines(rate, Stored(rate, history, w.clock), w.log, w.clock)
    ensures Ready(rate, history, w)
  {
  }

  lemma LoneDecision(rate: Rate, slot: Slot, log: seq<real>, clock: real, history: seq<real>, at: real)
    requires rate.duration > 0.0 && clock <= at
    requires Refines(rate, slot, log, clock) && Current(slot, history, clock) && Bounded(rate, log)
    ensures var kept := Kept(rate, history, at);
            Allows(rate, kept) ==>
              && Bounded(rate, [at] + log)
              && Refines(rate, Stored(rate, [at] + kept, at), [at] + log, at)
  {
    hide Bounded, Prune;
    var kept := Kept(rate, history, at);
    LoneKept(rate, slot, log, clock, history, at);
    if Allows(rate, kept) {
      GrantKeepsBound(rate, log, at);
    }
  }

  lemma LoneKept(rate: Rate, slot: Slot, log: seq<real>, clock: real, history: seq<real>, at: real)
    requires rate.duration > 0.0 && clock <= at
    requires Refines(rate, slot, log, clock) && Current(slot, history, clock)
    ensures IsWindow(Kept(rate, history, at), log, at - rate.duration, at)
  {
    hide Prune, InWindow, IsWindow;
    match slot
    case None =>
      PruneIsWindow([], log, at - rate.duration, at);
    case Some(e) =>
      assert history != e.history ==> log[0] <= at - rate.duration;
      PruneIsWindow(history, log, at - rate.duration, at);
  }

  lemma WriteAlone(rate: Rate, w: World, id: nat, at: real)
    requires Alone(rate, w) && Enabled(w, Write(id, at)) && |InFlight(w)| <= 1
    ensures Alone(rate, Step(rate, w, Write(id, at)))
  {
    hide Bounded, NewestFirst, Current;
    forall other | other in w.phases && other != id ensures w.phases[other].Done? {
      if other in InFlight(w) {
        assert id in InFlight(w);
        OnlyOne(InFlight(w), other, id);
      }
    }
  }

  lemma {:induction false} AloneIsBounded(rate: Rate, run: Run)
    requires rate.duration > 0.0 && rate.limit >= 0 && AtMost(rate, run, 1)
    ensures Alone(rate, WorldOf(rate, run))
  {
    match run
    case Start =>
      NothingRefines(rate, 0.0);
    case Then(before, event) =>
      AloneIsBounded(rate, before);
      var w := WorldOf(rate, before);
      if Enabled(w, event) {
        match event
        case Read(id, at) => ReadAlone(rate, w, id, at);
        case Decide(id, at) => DecideAlone(rate, w, id, at);
        case Write(id, at) => WriteAlone(rate, w, id, at);
      }
  }

  // ----- overlapping requests overshoot -----

  function Zeros(n: nat): seq<real> {
    seq(n, _ => 0.0)
  }

  /** k admissions at instant 0, one after the other. */
  function Queue(k: nat): Run {
    if k == 0 then Start
    else Then(Then(Then(Queue(k - 1), Read(k - 1, 0.0)), Decide(k - 1, 0.0)), Write(k - 1, 0.0))
  }

  /** After a queue of n, m further requests read before any of them decides. */
  function Readers(n: nat, m: nat): Run {
    if m == 0 then Queue(n) else Then(Readers(n, m - 1), Read(n + m - 1, 0.0))
  }

  /** Then d of the m readers decide. */
  function Deciders(n: nat, m: nat, d: nat): Run {
    if d == 0 then Readers(n, m) else Then(Deciders(n, m, d - 1), Decide(n + d - 1, 0.0))
  }

  /** n requests are over, then d have been admitted and not written, then m - d still hold what they read. */
  ghost predicate Crowd(w: World, n: nat, m: nat, d: nat) {
    && w.clock == 0.0 && w.log == Zeros(n + d)
    && LiveHistory(w.slot, 0.0) == Zeros(n)
    && (forall id: nat :: id in w.phases <==> id < n + m)
    && (forall id: nat :: id < n + m ==>
          if id < n then w.phases[id].Done?
          else if id < n + d then w.phases[id].Writing?
          else w.phases[id] == Reading(Zeros(n)))
  }

  lemma KeptZeros(rate: Rate, n: nat)
    requires rate.duration > 0.0
    ensures Kept(rate, Zeros(n), 0.0) == Zeros(n)
    ensures [0.0] + Zeros(n) == Zeros(n + 1)
  {
  }

  lemma CrowdInFlight(w: World, n: nat, m: nat, d: nat)
    requires Crowd(w, n, m, d)
    ensures |InFlight(w)| <= m
  {
    Subset(InFlight(w), Ids(n, m));
  }

  function Ids(n: nat, m: nat): (ids: set<nat>)
    ensures forall i :: i in ids <==> n <= i < n + m
    ensures |ids| == m
  {
    if m == 0 then {} else Ids(n, m - 1) + {n + m - 1}
  }

  lemma CrowdRead(rate: Rate, w: World, n: nat, m: nat)
    requires Crowd(w, n, m, 0)
    ensures Crowd(Step(rate, w, Read(n + m, 0.0)), n, m + 1, 0)
  {
  }

  lemma CrowdDecide(rate: Rate, w: World, n: nat, m: nat, d: nat)
    requires rate.duration > 0.0 && n < rate.limit && d < m && Crowd(w, n, m, d)
    ensures Crowd(Step(rate, w, Decide(n + d, 0.0)), n, m, d + 1)
    ensures Step(rate, w, Decide(n + d, 0.0)).phases[n + d] == Writing(Zeros(n + 1))
  {
    KeptZeros(rate, n);
    KeptZeros(rate, n + d);
  }

  lemma CrowdWrite(rate: Rate, w: World, n: nat)
    requires rate.duration > 0.0 && Crowd(w, n, 1, 1) && w.phases[n] == Writing(Zeros(n + 1))
    ensures Crowd(Step(rate, w, Write(n, 0.0)), n + 1, 0, 0)
  {
  }

  lemma {:induction false} QueueWorld(rate: Rate, n: nat, c: int)
    requires rate.duration > 0.0 && n <= rate.limit && c >= 1
    ensures Crowd(WorldOf(rate, Queue(n)), n, 0, 0)
    ensures AtMost(rate, Queue(n), c)
  {
    hide Crowd, InFlight, Step;
    if n == 0 {
      CrowdStart(rate);
    } else {
      QueueWorld(rate, n - 1, c);
      var r0 := Queue(n - 1);
      var r1 := Then(r0, Read(n - 1, 0.0));
      var r2 := Then(r1, Decide(n - 1, 0.0));
      CrowdRead(rate, WorldOf(rate, r0), n - 1, 0);
      CrowdInFlight(WorldOf(rate, r1), n - 1, 1, 0);
      CrowdDecide(rate, WorldOf(rate, r1), n - 1, 1, 0);
      CrowdInFlight(WorldOf(rate, r2), n - 1, 1, 1);
      CrowdWrite(rate, WorldOf(rate, r2), n - 1);
      assert AtMost(rate, r1, c) && AtMost(rate, r2, c);
    }
    CrowdInFlight(WorldOf(rate, Queue(n)), n, 0, 0);
  }

  lemma CrowdStart(rate: Rate)
    ensures Crowd(WorldOf(rate, Start), 0, 0, 0)
  {
  }

  lemma {:induction false} CrowdWorld(rate: Rate, n: nat, m: nat, d: nat, c: int)
    requires rate.duration > 0.0 && n < rate.limit && d <= m <= c && c >= 1
    ensures Crowd(WorldOf(rate, Deciders(n, m, d)), n, m, d)
    ensures AtMost(rate, Deciders(n, m, d), c)
    decreases m, d
  {
    hide Crowd, InFlight, Step;
    if d > 0 {
      CrowdWorld(rate, n, m, d - 1, c);
      CrowdDecide(rate, WorldOf(rate, Deciders(n, m, d - 1)), n, m, d - 1);
    } else if m > 0 {
      CrowdWorld(rate, n, m - 1, 0, c);
      CrowdRead(rate, WorldOf(rate, Readers(n, m - 1)), n, m - 1);
    } else {
      QueueWorld(rate, n, c);
    }
    CrowdInFlight(WorldOf(rate, Deciders(n, m, d)), n, m, d);
  }

  /** With c requests allowed in flight, some window holds limit - 1 + c admissions. */
  lemma Overshoot(rate: Rate, c: nat) returns (run: Run)
    requires rate.duration > 0.0 && rate.limit >= 1 && c >= 1
    ensures AtMost(rate, run, c)
    ensures InWindow(WorldOf(rate, run).log, 0.0 - rate.duration, 0.0) == rate.limit - 1 + c
  {
    hide AtMost, LiveHistory, InWindow;
    run := Deciders(rate.limit - 1, c, c);
    CrowdWorld(rate, rate.limit - 1, c, c, c);
    InWindowAll(Zeros(rate.limit - 1 + c), 0.0 - rate.duration, 0.0);
  }

  ghost predicate BoundHolds(rate: Rate, c: int) {
    forall run :: AtMost(rate, run, c) ==> Bounded(rate, WorldOf(rate, run).log)
  }

  /** The at-most-`limit` guarantee survives every interleaving exactly when requests cannot overlap. */
  lemma BoundIffNoOverlap(rate: Rate, c: int)
    requires rate.duration > 0.0 && rate.limit >= 1
    ensures BoundHolds(rate, c) <==> c <= 1
  {
    if c <= 1 {
      forall run | AtMost(rate, run, c) ensures Bounded(rate, WorldOf(rate, run).log) {
        AtMostWeaker(rate, run, c, 1);
        AloneIsBounded(rate, run);
      }
    } else {
      var run := Overshoot(rate, c);
      assert !WithinLimit(rate, WorldOf(rate, run).log, 0.0);
    }
  }

  lemma {:induction false} AtMostWeaker(rate: Rate, run: Run, c: int, c': int)
    requires AtMost(rate, run, c) && c <= c'
    ensures AtMost(rate, run, c')
  {
    if run.Then? {
      AtMostWeaker(rate, run.before, c, c');
    }
  }
}
