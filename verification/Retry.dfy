/** The retry loop around one request to another service (insanic/services/client.py). */
module Retry {
  import opened Wrappers

  datatype Verb = Get | Other(name: string)

  /** What one send produces: a response, an error the loop catches, or any other exception. */
  datatype Attempt = Response(status: nat) | Retriable(error: nat) | Fatal(error: nat)

  /** The network's answer to each send of one call. */
  type Network = nat -> Attempt

  /** `Nothing` stands for falling off the end of the loop without returning or raising. */
  datatype Result = Returned(status: nat) | Raised(last: Attempt) | Nothing

  datatype Config = Config(defaultRetries: int, maxRetries: int)

  predicate ServerError(status: nat) {
    500 <= status <= 599
  }

  /** The attempt failed in a way the loop catches; a server error is raised as one. */
  predicate Failed(a: Attempt) {
    a.Retriable? || (a.Response? && ServerError(a.status))
  }

  function Attempts(config: Config, verb: Verb, retryCount: Option<int>): int {
    if verb.Other? then 1
    else if retryCount.None? then 1 + config.defaultRetries
    else if retryCount.value <= config.maxRetries then 1 + retryCount.value
    else 1 + config.maxRetries
  }

  /** How many sends the loop makes from attempt i on. */
  function SendsFrom(network: Network, i: nat, attempts: int): (n: nat)
    ensures i <= attempts ==> n <= attempts - i
    decreases attempts - i
  {
    if i >= attempts then 0
    else if Failed(network(i)) then 1 + SendsFrom(network, i + 1, attempts)
    else 1
  }

  /** A lost attempt, in numbers: an error the loop catches, or a status of 500 to 599. */
  ghost predicate Lost(a: Attempt) {
    a.Retriable? || (a.Response? && 500 <= a.status && a.status < 600)
  }

  /**
   The number of sends is n: at most the limit, with every send before the last lost, and
   the last one not lost unless the limit is reached.
   */
  ghost predicate StopsAfter(network: Network, limit: nat, n: nat) {
    && n <= limit
    && (forall j :: 0 <= j < n - 1 ==> Lost(network(j)))
    && (n < limit ==> n > 0 && !Lost(network(n - 1)))
  }

  lemma {:induction false} SendsStop(network: Network, i: nat, attempts: nat)
    requires i <= attempts
    ensures var n := SendsFrom(network, i, attempts);
            && (forall j :: i <= j < i + n - 1 ==> Lost(network(j)))
            && (i + n < attempts ==> n > 0 && !Lost(network(i + n - 1)))
    decreases attempts - i
  {
    if i < attempts && Failed(network(i)) {
      SendsStop(network, i + 1, attempts);
    }
  }

  /**
   The most sends there can be, for counts that are not negative: one for anything but a
   GET, 1 + the smaller of an explicit count and the maximum, 1 + the default without one.
   */
  ghost predicate IsLimit(config: Config, verb: Verb, retryCount: Option<int>, limit: nat) {
    if verb.Other? then limit == 1
    else match retryCount
         case None => limit > 0 && limit - 1 == config.defaultRetries
         case Some(r) => && limit > 0
                         && limit - 1 <= r && limit - 1 <= config.maxRetries
                         && (limit - 1 == r || limit - 1 == config.maxRetries)
  }

  /** The limit is used up only if every send before the last is lost. */
  lemma SendsInNumbers(config: Config, verb: Verb, retryCount: Option<int>, network: Network, limit: nat)
    requires IsLimit(config, verb, retryCount, limit)
    ensures StopsAfter(network, limit, SendsFrom(network, 0, Attempts(config, verb, retryCount)))
  {
    SendsStop(network, 0, Attempts(config, verb, retryCount));
  }

  /** The three usual cases: all sends lost, the first one that is not, and the exact limit. */
  lemma StopsAfterIsExact(network: Network, limit: nat, n: nat, first: nat)
    requires StopsAfter(network, limit, n) && forall j :: 0 <= j < first ==> Lost(network(j))
    ensures first >= limit ==> n == limit
    ensures first < limit && !Lost(network(first)) ==> n == first + 1
  {
  }

  /** `_dispatch_send` */
  method DispatchSend(config: Config, verb: Verb, retryCount: Option<int>, network: Network)
    returns (result: Result, sends: nat)
    ensures sends == SendsFrom(network, 0, Attempts(config, verb, retryCount))
    ensures forall limit: nat :: IsLimit(config, verb, retryCount, limit) ==> StopsAfter(network, limit, sends)
    ensures result.Nothing? <==> sends == 0
    ensures forall j :: 0 <= j < sends - 1 ==> Failed(network(j))
    ensures sends > 0 ==>
              var last := network(sends - 1);
              if Failed(last) then result == Raised(last) && sends == Attempts(config, verb, retryCount)
              else if last.Response? then result == Returned(last.status)
              else result == Raised(last)
  {
    var attempts := 1;
    if verb.Get? {
      if retryCount.None? {
        attempts := attempts + config.defaultRetries;
      } else {
        attempts := attempts + if retryCount.value <= config.maxRetries then retryCount.value else config.maxRetries;
      }
    }
    sends := 0;
    while sends < attempts
      invariant sends > 0 ==> sends <= attempts
      invariant forall j :: 0 <= j < sends ==> Failed(network(j))
      invariant SendsFrom(network, 0, attempts) == sends + SendsFrom(network, sends, attempts)
      invariant sends > 0 ==> sends < attempts
      decreases attempts - sends
    {
      var i := sends;
      var attempt := network(i);
      sends := sends + 1;
      if Failed(attempt) {
        if i + 1 >= attempts {
          return Raised(attempt), sends;
        }
      } else if attempt.Response? {
        return Returned(attempt.status), sends;
      } else {
        return Raised(attempt), sends;
      }
    }
    return Nothing, sends;
  }

  /** The loop stops at the first attempt that does not fail, or after the last one. */
  lemma {:induction false} SendsStopAtFirst(network: Network, i: nat, attempts: int, first: nat)
    requires i <= first
    requires forall j :: i <= j < first ==> Failed(network(j))
    ensures first < attempts && !Failed(network(first)) ==> SendsFrom(network, i, attempts) == first - i + 1
    ensures i <= attempts <= first ==> SendsFrom(network, i, attempts) == attempts - i
    decreases first - i
  {
    if i < first {
      SendsStopAtFirst(network, i + 1, attempts, first);
    }
  }

  /**
   Only GET is ever sent twice, an explicit count is capped by the configured maximum,
   and nothing is sent at all exactly for a GET whose effective count is negative.
   */
  lemma SendLimits(config: Config, verb: Verb, retryCount: Option<int>, network: Network)
    ensures var n := SendsFrom(network, 0, Attempts(config, verb, retryCount));
            && (verb.Other? ==> n == 1)
            && (verb.Get? && retryCount.Some? && 0 <= config.maxRetries ==> n <= 1 + config.maxRetries)
            && (n == 0 <==> verb.Get? && if retryCount.None? then config.defaultRetries < 0
                                         else retryCount.value < 0 || config.maxRetries < 0)
  {
    var attempts := Attempts(config, verb, retryCount);
    if attempts == 1 {
      assert SendsFrom(network, 1, 1) == 0;
    }
  }
}
