/**
 The throttle of insanic/throttles.py. A request reads the history of its key from a
 store whose entries expire, drops what has left the window, decides, and on success
 writes the history back with a fresh expiry. Times are exact reals.

 The functions say what each step computes from values; the class does the same steps
 in place, and its methods are proved against the functions.
 */
module Throttle {
  import opened Wrappers
  import opened SlidingWindow

  /** What the store holds under one key: the newest-first history, and when it is dropped. */
  datatype Entry = Entry(history: seq<real>, expiresAt: real)

  type Slot = Option<Entry>

  type Entries = map<string, Entry>

  function SlotIn(entries: Entries, key: string): Slot {
    if key in entries then Some(entries[key]) else None
  }

  function Put(entries: Entries, key: string, slot: Slot): Entries {
    if slot.Some? then entries[key := slot.value] else entries
  }

  /** The three instants of one request: store read, clock reading, store write. */
  datatype Timing = Timing(read: real, clock: real, write: real)

  predicate Ordered(t: Timing) {
    t.read <= t.clock <= t.write
  }

  function LiveHistory(slot: Slot, at: real): seq<real> {
    if slot.Some? && at < slot.value.expiresAt then slot.value.history else []
  }

  /** How many of the first n times are left once the old end is dropped up to the cutoff. */
  function KeepCount(history: seq<real>, cutoff: real, n: nat): (k: nat)
    requires n <= |history|
    ensures k <= n
    ensures k > 0 ==> history[k - 1] > cutoff
    ensures forall j :: k <= j < n ==> history[j] <= cutoff
  {
    if n > 0 && history[n - 1] <= cutoff then KeepCount(history, cutoff, n - 1) else n
  }

  /** Drops times from the old end while they are at or before the cutoff. */
  function Prune(history: seq<real>, cutoff: real): seq<real> {
    history[..KeepCount(history, cutoff, |history|)]
  }

  function Kept(rate: Rate, history: seq<real>, now: real): seq<real> {
    Prune(history, now - rate.duration)
  }

  predicate Allows(rate: Rate, kept: seq<real>) {
    |kept| < rate.limit
  }

  function Stored(rate: Rate, history: seq<real>, at: real): Slot {
    Some(Entry(history, at + rate.duration))
  }

  /** Whether a request that runs undisturbed is allowed, and the slot it leaves behind. */
  predicate Allowed(rate: Rate, slot: Slot, t: Timing) {
    Allows(rate, Kept(rate, LiveHistory(slot, t.read), t.clock))
  }

  /** The history a throttle object holds after an undisturbed request. */
  function HistoryAfter(rate: Rate, slot: Slot, t: Timing): seq<real> {
    var kept := Kept(rate, LiveHistory(slot, t.read), t.clock);
    if Allows(rate, kept) then [t.clock] + kept else kept
  }

  function SlotAfter(rate: Rate, slot: Slot, t: Timing): Slot {
    var kept := Kept(rate, LiveHistory(slot, t.read), t.clock);
    if Allows(rate, kept) then Stored(rate, [t.clock] + kept, t.write) else slot
  }

  /** The recommended wait: what is left of the oldest request's window, shared among the free places. */
  function WaitFor(rate: Rate, history: seq<real>, now: real): Option<real> {
    var remaining := if history != [] then rate.duration - (now - history[|history| - 1]) else rate.duration;
    var available := rate.limit - |history| + 1;
    if available <= 0 then None else Some(remaining / available as real)
  }

  /** No wait is recommended for a history longer than the limit; an empty one shares out the whole duration. */
  lemma WaitAtTheEnds(rate: Rate, history: seq<real>, now: real)
    ensures |history| > rate.limit ==> WaitFor(rate, history, now) == None
    ensures history == [] && rate.limit >= 0 ==> WaitFor(rate, history, now) == Some(rate.duration / (1 + rate.limit) as real)
  {
  }

  // ----- the objects -----

  class Store {
    var entries: Entries

    constructor ()
      ensures entries == map[]
    {
      entries := map[];
    }

    function SlotOf(key: string): Slot
      reads this
    {
      SlotIn(entries, key)
    }

    method Get(key: string, at: real) returns (history: seq<real>)
      ensures history == LiveHistory(SlotOf(key), at)
    {
      if key in entries && at < entries[key].expiresAt {
        history := entries[key].history;
      } else {
        history := [];
      }
    }

    method Set(key: string, history: seq<real>, at: real, expire: real)
      modifies this
      ensures entries == old(entries)[key := Entry(history, at + expire)]
    {
      entries := entries[key := Entry(history, at + expire)];
    }
  }

  class SimpleRateThrottle {
    const rate: Option<Rate>
    var key: string
    var now: real
    var history: seq<real>

    constructor (rate: Option<Rate>)
      ensures this.rate == rate
    {
      this.rate := rate;
      key, now, history := "", 0.0, [];
    }

    method ReadHistory(store: Store, cacheKey: string, at: real)
      modifies this
      ensures key == cacheKey
      ensures history == LiveHistory(store.SlotOf(cacheKey), at)
    {
      key := cacheKey;
      history := store.Get(key, at);
    }

    /** The clock reading, the pruning loop and the comparison, with no store access. */
    method Decide(at: real) returns (allowed: bool)
      requires rate.Some?
      modifies this`now, this`history
      ensures now == at
      ensures history == Kept(rate.value, old(history), at)
      ensures allowed == Allows(rate.value, history)
    {
      now := at;
      while history != [] && history[|history| - 1] <= now - rate.value.duration
        invariant now == at
        invariant |history| <= |old(history)| && history == old(history)[..|history|]
        invariant forall j :: |history| <= j < |old(history)| ==> old(history)[j] <= at - rate.value.duration
        decreases |history|
      {
        history := history[..|history| - 1];
      }
      allowed := |history| < rate.value.limit;
    }

    method ThrottleSuccess(store: Store, at: real)
      requires rate.Some?
      modifies this`history, store
      ensures history == [now] + old(history)
      ensures store.entries == old(store.entries)[key := Stored(rate.value, history, at).value]
    {
      history := [now] + history;
      store.Set(key, history, at, rate.value.duration);
    }

    /** The whole request, undisturbed between its read and its write. */
    method AllowRequest(store: Store, cacheKey: Option<string>, t: Timing) returns (allowed: bool)
      modifies this, store
      ensures rate.None? || cacheKey.None? ==> allowed && store.entries == old(store.entries)
      ensures rate.Some? && cacheKey.Some? ==>
                && allowed == Allowed(rate.value, old(store.SlotOf(cacheKey.value)), t)
                && now == t.clock
                && history == HistoryAfter(rate.value, old(store.SlotOf(cacheKey.value)), t)
                && store.entries == Put(old(store.entries), cacheKey.value,
                                        SlotAfter(rate.value, old(store.SlotOf(cacheKey.value)), t))
    {
      if rate.None? || cacheKey.None? {
        return true;
      }
      ReadHistory(store, cacheKey.value, t.read);
      allowed := Decide(t.clock);
      if allowed {
        ThrottleSuccess(store, t.write);
      }
    }

    method Wait() returns (seconds: Option<real>)
      requires rate.Some?
      ensures seconds == WaitFor(rate.value, history, now)
    {
      var remaining: real;
      if history != [] {
        remaining := rate.value.duration - (now - history[|history| - 1]);
      } else {
        remaining := rate.value.duration;
      }
      var available := rate.value.limit - |history| + 1;
      if available <= 0 {
        return None;
      }
      return Some(remaining / available as real);
    }
  }
}
