/**
 The traffic one ping causes when each onward ping goes through the retry loop: every
 send may reach the peer and run its ping endpoint, whatever comes back.
 */
module PingLoad {
  import opened Wrappers
  import opened Retry
  import opened Ping

  /** Which connection was followed and by which attempt, at every level from the first ping. */
  type Address = seq<(nat, nat)>

  /** The answer to each individual send, and whether the peer's endpoint ran for it. */
  datatype Conduct = Conduct(answer: Address -> Attempt, ran: Address -> bool)

  function NetworkAt(conduct: Conduct, at: Address, connection: nat): Network {
    (j: nat) => conduct.answer(at + [(connection, j)])
  }

  /** All sends caused by a ping of this depth, with `attempts` tries for each onward ping. */
  function Load(mesh: Mesh, service: string, depth: nat, conduct: Conduct, attempts: int, at: Address): nat
    decreases depth, 2, 0
  {
    if depth == 0 then 0 else LoadFrom(mesh, service, depth, conduct, attempts, at, 0)
  }

  function LoadFrom(mesh: Mesh, service: string, depth: nat, conduct: Conduct, attempts: int, at: Address, i: nat): nat
    requires depth > 0 && i <= |Targets(mesh, service)|
    decreases depth, 1, |Targets(mesh, service)| - i
  {
    if i == |Targets(mesh, service)| then 0
    else
      CallLoad(mesh, Targets(mesh, service)[i], depth, conduct, attempts, at, i, SendsFrom(NetworkAt(conduct, at, i), 0, attempts))
      + LoadFrom(mesh, service, depth, conduct, attempts, at, i + 1)
  }

  /** The first n sends of one call, each with whatever the peer then does. */
  function CallLoad(mesh: Mesh, peer: string, depth: nat, conduct: Conduct, attempts: int, at: Address, connection: nat, n: nat): nat
    requires depth > 0
    decreases depth, 0, n
  {
    if n == 0 then 0
    else
      var here := at + [(connection, n - 1)];
      CallLoad(mesh, peer, depth, conduct, attempts, at, connection, n - 1)
      + 1 + if conduct.ran(here) then Load(mesh, peer, depth - 1, conduct, attempts, here) else 0
  }

  // ----- exactly which sends happen -----

  /** The connections that an address follows, as a walk. */
  function Connections(w: Address): seq<nat> {
    seq(|w|, l requires 0 <= l < |w| => w[l].0)
  }

  /** At this level the attempt is allowed, the ones before it failed, and the peer ran for the send above. */
  ghost predicate LevelHappens(conduct: Conduct, attempts: int, at: Address, w: Address, l: nat)
    requires l < |w|
  {
    && w[l].1 < attempts
    && (forall j: nat :: j < w[l].1 ==> Failed(conduct.answer(at + w[..l] + [(w[l].0, j)])))
    && (l > 0 ==> conduct.ran(at + w[..l]))
  }

  /** The address of a send that one ping of this depth causes. */
  ghost predicate Happens(mesh: Mesh, service: string, depth: nat, conduct: Conduct, attempts: int, at: Address, w: Address) {
    && 1 <= |w| <= depth
    && IsWalk(mesh, service, Connections(w))
    && forall l :: 0 <= l < |w| ==> LevelHappens(conduct, attempts, at, w, l)
  }

  /** The same, one level at a time. */
  ghost predicate Sent(mesh: Mesh, service: string, depth: nat, conduct: Conduct, attempts: int, at: Address, w: Address)
    decreases |w|
  {
    && w != [] && depth > 0
    && w[0].0 < |Targets(mesh, service)|
    && w[0].1 < SendsFrom(NetworkAt(conduct, at, w[0].0), 0, attempts)
    && (|w| == 1 || (conduct.ran(at + [w[0]])
                     && Sent(mesh, Targets(mesh, service)[w[0].0], depth - 1, conduct, attempts, at + [w[0]], w[1..])))
  }

  lemma {:induction false} ReachedIff(network: Network, i: nat, j: nat, attempts: int)
    requires i <= j
    ensures j - i < SendsFrom(network, i, attempts) <==> j < attempts && forall m: nat :: i <= m < j ==> Failed(network(m))
    decreases j - i
  {
    if i < j && i < attempts && Failed(network(i)) {
      ReachedIff(network, i + 1, j, attempts);
    }
  }

  lemma FirstLevel(conduct: Conduct, attempts: int, at: Address, w: Address)
    requires w != []
    ensures LevelHappens(conduct, attempts, at, w, 0) <==> w[0].1 < SendsFrom(NetworkAt(conduct, at, w[0].0), 0, attempts)
  {
    var network := NetworkAt(conduct, at, w[0].0);
    ReachedIff(network, 0, w[0].1, attempts);
    assert at + w[..0] == at;
    assert forall j: nat :: network(j) == conduct.answer(at + w[..0] + [(w[0].0, j)]);
  }

  lemma LowerLevel(conduct: Conduct, attempts: int, at: Address, w: Address, l: nat)
    requires 0 < l < |w|
    ensures LevelHappens(conduct, attempts, at, w, l) <==>
            LevelHappens(conduct, attempts, at + [w[0]], w[1..], l - 1) && (l == 1 ==> conduct.ran(at + [w[0]]))
  {
    assert at + w[..l] == at + [w[0]] + w[1..][..l - 1];
    assert l == 1 ==> at + w[..l] == at + [w[0]];
  }

  lemma {:induction false} SentIsHappens(mesh: Mesh, service: string, depth: nat, conduct: Conduct, attempts: int, at: Address, w: Address)
    ensures Sent(mesh, service, depth, conduct, attempts, at, w) <==> Happens(mesh, service, depth, conduct, attempts, at, w)
    decreases |w|
  {
    hide LevelHappens, SendsFrom, Targets;
    if w != [] && depth > 0 {
      FirstLevel(conduct, attempts, at, w);
      assert Connections(w)[1..] == Connections(w[1..]);
      assert Connections(w)[0] == w[0].0;
      forall l | 0 < l < |w|
        ensures LevelHappens(conduct, attempts, at, w, l) <==>
                LevelHappens(conduct, attempts, at + [w[0]], w[1..], l - 1) && (l == 1 ==> conduct.ran(at + [w[0]]))
      {
        LowerLevel(conduct, attempts, at, w, l);
      }
      if w[0].0 < |Targets(mesh, service)| {
        var child := Targets(mesh, service)[w[0].0];
        if |w| > 1 {
          SentIsHappens(mesh, child, depth - 1, conduct, attempts, at + [w[0]], w[1..]);
          LevelsShift(conduct, attempts, at, w);
        } else {
          assert |Connections(w[1..])| == 0;
          assert IsWalk(mesh, child, Connections(w)[1..]);
        }
      }
    }
  }

  lemma LevelsShift(conduct: Conduct, attempts: int, at: Address, w: Address)
    requires |w| > 1
    ensures (forall l :: 0 <= l < |w| ==> LevelHappens(conduct, attempts, at, w, l)) <==>
            && LevelHappens(conduct, attempts, at, w, 0)
            && conduct.ran(at + [w[0]])
            && forall l :: 0 <= l < |w[1..]| ==> LevelHappens(conduct, attempts, at + [w[0]], w[1..], l)
  {
    hide LevelHappens;
    forall l | 0 < l < |w|
      ensures LevelHappens(conduct, attempts, at, w, l) <==>
              LevelHappens(conduct, attempts, at + [w[0]], w[1..], l - 1) && (l == 1 ==> conduct.ran(at + [w[0]]))
    {
      LowerLevel(conduct, attempts, at, w, l);
    }
    if (forall l :: 0 <= l < |w| ==> LevelHappens(conduct, attempts, at, w, l)) {
      forall l | 0 <= l < |w[1..]| ensures LevelHappens(conduct, attempts, at + [w[0]], w[1..], l) {
        assert LevelHappens(conduct, attempts, at, w, l + 1);
      }
      assert LevelHappens(conduct, attempts, at, w, 1);
    }
  }

  lemma {:induction false} PrefixSet(x: (nat, nat), t: set<Address>) returns (s: set<Address>)
    ensures forall w: Address :: w in s <==> w != [] && w[0] == x && w[1..] in t
    ensures |s| == |t|
  {
    if t == {} {
      s := {};
    } else {
      var u :| u in t;
      var rest := PrefixSet(x, t - {u});
      var v := [x] + u;
      assert v[1..] == u;
      s := rest + {v};
      forall w: Address ensures w in s <==> w != [] && w[0] == x && w[1..] in t {
        if w != [] && w[0] == x && w[1..] == u {
          assert w == [w[0]] + w[1..];
        }
      }
    }
  }

  /** The sends through one attempt of one call. */
  lemma {:induction false} AttemptSet(mesh: Mesh, service: string, depth: nat, conduct: Conduct, attempts: int, at: Address, c: nat, j: nat)
    returns (s: set<Address>)
    requires depth > 0 && c < |Targets(mesh, service)| && j < SendsFrom(NetworkAt(conduct, at, c), 0, attempts)
    ensures forall w: Address :: w in s <==> w != [] && w[0] == (c, j) && Sent(mesh, service, depth, conduct, attempts, at, w)
    ensures |s| == 1 + if conduct.ran(at + [(c, j)])
                       then Load(mesh, Targets(mesh, service)[c], depth - 1, conduct, attempts, at + [(c, j)]) else 0
    decreases depth, 0, 0
  {
    hide Targets, SendsFrom, Load, Sent;
    var here, peer := at + [(c, j)], Targets(mesh, service)[c];
    var below: set<Address> := {};
    if conduct.ran(here) {
      below := SendSet(mesh, peer, depth - 1, conduct, attempts, here);
    }
    SentNonEmpty(mesh, peer, depth - 1, conduct, attempts, here);
    var through := PrefixSet((c, j), below);
    var one: Address := [(c, j)];
    s := {one} + through;
    assert one !in through by {
      assert one[1..] == [];
    }
    forall w: Address ensures w in s <==> w != [] && w[0] == (c, j) && Sent(mesh, service, depth, conduct, attempts, at, w) {
      OneSend(mesh, service, depth, conduct, attempts, at, c, j, w);
    }
  }

  lemma SentNonEmpty(mesh: Mesh, service: string, depth: nat, conduct: Conduct, attempts: int, at: Address)
    ensures !Sent(mesh, service, depth, conduct, attempts, at, [])
  {
  }

  lemma OneSend(mesh: Mesh, service: string, depth: nat, conduct: Conduct, attempts: int, at: Address, c: nat, j: nat, w: Address)
    requires depth > 0 && c < |Targets(mesh, service)| && j < SendsFrom(NetworkAt(conduct, at, c), 0, attempts)
    ensures w != [] && w[0] == (c, j) && Sent(mesh, service, depth, conduct, attempts, at, w) <==>
            || w == [(c, j)]
            || (w != [] && w[0] == (c, j) && conduct.ran(at + [(c, j)])
                && Sent(mesh, Targets(mesh, service)[c], depth - 1, conduct, attempts, at + [(c, j)], w[1..]))
  {
    hide Targets, SendsFrom;
    if w != [] && w[0] == (c, j) {
      assert |w| == 1 <==> w == [(c, j)];
    }
  }

  /** The sends through the first n attempts of one call. */
  lemma {:induction false} CallSet(mesh: Mesh, service: string, depth: nat, conduct: Conduct, attempts: int, at: Address, c: nat, n: nat)
    returns (s: set<Address>)
    requires depth > 0 && c < |Targets(mesh, service)| && n <= SendsFrom(NetworkAt(conduct, at, c), 0, attempts)
    ensures forall w: Address :: w in s <==> w != [] && w[0].0 == c && w[0].1 < n && Sent(mesh, service, depth, conduct, attempts, at, w)
    ensures |s| == CallLoad(mesh, Targets(mesh, service)[c], depth, conduct, attempts, at, c, n)
    decreases depth, 1, n
  {
    hide Targets, SendsFrom, Load, Sent;
    if n == 0 {
      s := {};
    } else {
      var before := CallSet(mesh, service, depth, conduct, attempts, at, c, n - 1);
      var last := AttemptSet(mesh, service, depth, conduct, attempts, at, c, n - 1);
      s := before + last;
      assert before !! last;
      forall w: Address
        ensures w in s <==> w != [] && w[0].0 == c && w[0].1 < n && Sent(mesh, service, depth, conduct, attempts, at, w)
      {
        assert w != [] ==> (w[0] == (c, n - 1) <==> w[0].0 == c && w[0].1 == n - 1);
      }
    }
  }

  /** The sends through connection i and those after it. */
  lemma {:induction false} FromSet(mesh: Mesh, service: string, depth: nat, conduct: Conduct, attempts: int, at: Address, i: nat)
    returns (s: set<Address>)
    requires depth > 0 && i <= |Targets(mesh, service)|
    ensures forall w: Address :: w in s <==> w != [] && i <= w[0].0 && Sent(mesh, service, depth, conduct, attempts, at, w)
    ensures |s| == LoadFrom(mesh, service, depth, conduct, attempts, at, i)
    decreases depth, 2, |Targets(mesh, service)| - i
  {
    if i == |Targets(mesh, service)| {
      s := {};
    } else {
      SentWithin(mesh, service, depth, conduct, attempts, at, i);
      hide Targets, CallLoad, Sent;
      var call := CallSet(mesh, service, depth, conduct, attempts, at, i, SendsFrom(NetworkAt(conduct, at, i), 0, attempts));
      var rest := FromSet(mesh, service, depth, conduct, attempts, at, i + 1);
      s := call + rest;
      assert call !! rest;
    }
  }

  lemma SentWithin(mesh: Mesh, service: string, depth: nat, conduct: Conduct, attempts: int, at: Address, i: nat)
    ensures forall w: Address :: w != [] && w[0].0 == i && Sent(mesh, service, depth, conduct, attempts, at, w) ==>
              w[0].1 < SendsFrom(NetworkAt(conduct, at, i), 0, attempts)
  {
  }

  lemma {:induction false} SendSet(mesh: Mesh, service: string, depth: nat, conduct: Conduct, attempts: int, at: Address)
    returns (s: set<Address>)
    ensures forall w: Address :: w in s <==> Sent(mesh, service, depth, conduct, attempts, at, w)
    ensures |s| == Load(mesh, service, depth, conduct, attempts, at)
    decreases depth, 3, 0
  {
    if depth == 0 {
      s := {};
    } else {
      s := FromSet(mesh, service, depth, conduct, attempts, at, 0);
      assert forall w: Address :: Sent(mesh, service, depth, conduct, attempts, at, w) ==> w != [];
    }
  }

  /**
   The load is the number of sends that happen, whatever each one returned and whether or
   not it ran the peer: an address is a send exactly when it follows a walk of length
   1..depth and at every level its attempt is within the limit, all earlier attempts of
   that call failed, and the send above it ran the peer.
   */
  lemma LoadCountsSends(mesh: Mesh, service: string, depth: nat, conduct: Conduct, attempts: int, at: Address)
    returns (s: set<Address>)
    ensures forall w: Address :: w in s <==> Happens(mesh, service, depth, conduct, attempts, at, w)
    ensures |s| == Load(mesh, service, depth, conduct, attempts, at)
  {
    hide Sent, Happens, Load;
    s := SendSet(mesh, service, depth, conduct, attempts, at);
    forall w: Address ensures w in s <==> Happens(mesh, service, depth, conduct, attempts, at, w) {
      SentIsHappens(mesh, service, depth, conduct, attempts, at, w);
    }
  }

  // ----- the geometric bound -----

  function Pow(b: nat, i: nat): nat {
    if i == 0 then 1 else b * Pow(b, i - 1)
  }

  /** b + b^2 + ... + b^d */
  function SumPow(b: nat, d: nat): nat {
    if d == 0 then 0 else SumPow(b, d - 1) + Pow(b, d)
  }

  lemma {:induction false} SumPowStep(b: nat, d: nat)
    requires d > 0
    ensures SumPow(b, d) == b * (1 + SumPow(b, d - 1))
  {
    if d == 1 {
      assert Pow(b, 1) == b * Pow(b, 0) && SumPow(b, 1) == SumPow(b, 0) + Pow(b, 1);
    } else {
      SumPowStep(b, d - 1);
      Distribute(b, 1 + SumPow(b, d - 2), Pow(b, d - 1));
    }
  }

  lemma MulLe(x: nat, y: nat, g: nat)
    requires x <= y
    ensures x * g <= y * g
  {
  }

  lemma Distribute(b: nat, x: nat, y: nat)
    ensures b * (x + y) == b * x + b * y
  {
  }

  lemma OneMore(n: nat, g: nat)
    requires n > 0
    ensures n * g == (n - 1) * g + g
  {
  }

  lemma Regroup(a: nat, k: nat, g: nat)
    ensures k * (a * g) == (a * k) * g
  {
  }

  ghost predicate AtMostConnections(mesh: Mesh, k: nat) {
    forall s :: |Targets(mesh, s)| <= k
  }

  ghost predicate LoadsAtMost(mesh: Mesh, peer: string, depth: nat, conduct: Conduct, attempts: nat, c: nat) {
    forall here :: Load(mesh, peer, depth, conduct, attempts, here) <= c
  }

  ghost predicate LoadsExactly(mesh: Mesh, peer: string, depth: nat, conduct: Conduct, attempts: nat, c: nat) {
    forall here :: conduct.ran(here) && Load(mesh, peer, depth, conduct, attempts, here) == c
  }

  /** Sends each followed by at most c more add up to at most n * (1 + c), and exactly that if all are equal. */
  lemma {:induction false} CallLoadSum(mesh: Mesh, peer: string, depth: nat, conduct: Conduct, attempts: nat,
                                      at: Address, connection: nat, n: nat, c: nat)
    requires depth > 0
    requires LoadsAtMost(mesh, peer, depth - 1, conduct, attempts, c) || LoadsExactly(mesh, peer, depth - 1, conduct, attempts, c)
    ensures CallLoad(mesh, peer, depth, conduct, attempts, at, connection, n) <= n * (1 + c)
    ensures LoadsExactly(mesh, peer, depth - 1, conduct, attempts, c) ==>
              CallLoad(mesh, peer, depth, conduct, attempts, at, connection, n) == n * (1 + c)
    decreases n
  {
    hide Load;
    if n > 0 {
      CallLoadSum(mesh, peer, depth, conduct, attempts, at, connection, n - 1, c);
      OneMore(n, 1 + c);
    }
  }

  function CallAt(mesh: Mesh, service: string, depth: nat, conduct: Conduct, attempts: nat, at: Address, i: nat): nat
    requires depth > 0 && i < |Targets(mesh, service)|
  {
    CallLoad(mesh, Targets(mesh, service)[i], depth, conduct, attempts, at, i, SendsFrom(NetworkAt(conduct, at, i), 0, attempts))
  }

  lemma {:induction false} LoadFromSum(mesh: Mesh, service: string, depth: nat, conduct: Conduct, attempts: nat,
                                      at: Address, i: nat, x: nat)
    requires depth > 0 && i <= |Targets(mesh, service)|
    requires forall e :: i <= e < |Targets(mesh, service)| ==> CallAt(mesh, service, depth, conduct, attempts, at, e) <= x
    ensures LoadFrom(mesh, service, depth, conduct, attempts, at, i) <= (|Targets(mesh, service)| - i) * x
    ensures (forall e :: i <= e < |Targets(mesh, service)| ==> CallAt(mesh, service, depth, conduct, attempts, at, e) == x) ==>
              LoadFrom(mesh, service, depth, conduct, attempts, at, i) == (|Targets(mesh, service)| - i) * x
    decreases |Targets(mesh, service)| - i
  {
    if i < |Targets(mesh, service)| {
      assert LoadFrom(mesh, service, depth, conduct, attempts, at, i) ==
             CallAt(mesh, service, depth, conduct, attempts, at, i) + LoadFrom(mesh, service, depth, conduct, attempts, at, i + 1);
      hide CallAt, Targets, LoadFrom;
      LoadFromSum(mesh, service, depth, conduct, attempts, at, i + 1, x);
      OneMore(|Targets(mesh, service)| - i, x);
    }
  }

  /**
   With at most k resolvable connections per service and `attempts` tries per onward ping,
   one ping of depth d causes at most the sum of (attempts * k)^i for i = 1..d sends.
   */
  lemma {:induction false} LoadBound(mesh: Mesh, service: string, depth: nat, conduct: Conduct, attempts: nat, at: Address, k: nat)
    requires AtMostConnections(mesh, k)
    ensures Load(mesh, service, depth, conduct, attempts, at) <= SumPow(attempts * k, depth)
    decreases depth
  {
    hide SumPow, CallLoad, Targets, LoadFrom;
    if depth == 0 {
      assert Load(mesh, service, depth, conduct, attempts, at) == 0;
    } else {
      var c := SumPow(attempts * k, depth - 1);
      forall e | 0 <= e < |Targets(mesh, service)|
        ensures CallAt(mesh, service, depth, conduct, attempts, at, e) <= attempts * (1 + c)
      {
        var peer, n := Targets(mesh, service)[e], SendsFrom(NetworkAt(conduct, at, e), 0, attempts);
        assert LoadsAtMost(mesh, peer, depth - 1, conduct, attempts, c) by {
          var d: nat := depth - 1;
          forall here: Address ensures Load(mesh, peer, d, conduct, attempts, here) <= c {
            LoadBound(mesh, peer, d, conduct, attempts, here, k);
          }
        }
        CallLoadSum(mesh, peer, depth, conduct, attempts, at, e, n, c);
        MulLe(n, attempts, 1 + c);
      }
      LoadFromSum(mesh, service, depth, conduct, attempts, at, 0, attempts * (1 + c));
      Total(attempts, k, |Targets(mesh, service)|, c);
      SumPowStep(attempts * k, depth);
    }
  }

  lemma Total(attempts: nat, k: nat, connections: nat, c: nat)
    requires connections <= k
    ensures connections * (attempts * (1 + c)) <= (attempts * k) * (1 + c)
    ensures connections == k ==> connections * (attempts * (1 + c)) == (attempts * k) * (1 + c)
  {
    MulLe(connections, k, attempts * (1 + c));
    Regroup(attempts, k, 1 + c);
  }

  // ----- the bound is attained -----

  /** Every service of the mesh pings exactly k others, all in the mesh. */
  ghost predicate Regular(mesh: Mesh, k: nat) {
    forall s :: s in mesh ==> |Targets(mesh, s)| == k && forall i :: 0 <= i < k ==> Targets(mesh, s)[i] in mesh
  }

  /** Every send runs the peer's endpoint and is then reported as failed. */
  ghost predicate Worst(conduct: Conduct) {
    forall at :: Failed(conduct.answer(at)) && conduct.ran(at)
  }

  lemma {:induction false} AllFail(network: Network, i: nat, attempts: nat)
    requires i <= attempts && forall j :: Failed(network(j))
    ensures SendsFrom(network, i, attempts) == attempts - i
    decreases attempts - i
  {
    if i < attempts {
      AllFail(network, i + 1, attempts);
    }
  }

  /** In a regular mesh where every send fails after running the endpoint, the bound is met exactly. */
  lemma {:induction false} LoadAttained(mesh: Mesh, service: string, depth: nat, conduct: Conduct, attempts: nat, at: Address, k: nat)
    requires Regular(mesh, k) && Worst(conduct) && service in mesh
    ensures Load(mesh, service, depth, conduct, attempts, at) == SumPow(attempts * k, depth)
    decreases depth
  {
    hide CallLoad, Targets, LoadFrom, SendsFrom;
    if depth > 0 {
      var c := SumPow(attempts * k, depth - 1);
      forall e | 0 <= e < |Targets(mesh, service)|
        ensures CallAt(mesh, service, depth, conduct, attempts, at, e) == attempts * (1 + c)
      {
        var peer := Targets(mesh, service)[e];
        AllFail(NetworkAt(conduct, at, e), 0, attempts);
        assert LoadsExactly(mesh, peer, depth - 1, conduct, attempts, c) by {
          var d: nat := depth - 1;
          forall here: Address ensures conduct.ran(here) && Load(mesh, peer, d, conduct, attempts, here) == c {
            LoadAttained(mesh, peer, d, conduct, attempts, here, k);
          }
        }
        CallLoadSum(mesh, peer, depth, conduct, attempts, at, e, attempts, c);
      }
      LoadFromSum(mesh, service, depth, conduct, attempts, at, 0, attempts * (1 + c));
      Total(attempts, k, |Targets(mesh, service)|, c);
      SumPowStep(attempts * k, depth);
    }
  }

  // ----- without failures the load is the number of walks -----

  /** Every send runs the peer's endpoint and its response is not a failure. */
  ghost predicate Calm(conduct: Conduct) {
    forall at :: !Failed(conduct.answer(at)) && conduct.ran(at)
  }

  lemma {:induction false} CalmLoadFrom(mesh: Mesh, service: string, depth: nat, conduct: Conduct, attempts: nat, at: Address, i: nat)
    requires depth > 0 && i <= |Targets(mesh, service)| && Calm(conduct) && attempts >= 1
    ensures LoadFrom(mesh, service, depth, conduct, attempts, at, i) == |PingsFrom(mesh, service, depth, i)|
    decreases depth, |Targets(mesh, service)| - i
  {
    PingsFromStep(mesh, service, depth, i);
    if i < |Targets(mesh, service)| {
      var peer := Targets(mesh, service)[i];
      assert SendsFrom(NetworkAt(conduct, at, i), 0, attempts) == 1;
      CalmLoad(mesh, peer, depth - 1, conduct, attempts, at + [(i, 0)]);
      assert CallLoad(mesh, peer, depth, conduct, attempts, at, i, 0) == 0;
      CalmLoadFrom(mesh, service, depth, conduct, attempts, at, i + 1);
    }
  }

  lemma {:induction false} CalmLoad(mesh: Mesh, service: string, depth: nat, conduct: Conduct, attempts: nat, at: Address)
    requires Calm(conduct) && attempts >= 1
    ensures Load(mesh, service, depth, conduct, attempts, at) == |Pings(mesh, service, depth)|
    decreases depth, |Targets(mesh, service)| + 1
  {
    if depth > 0 {
      CalmLoadFrom(mesh, service, depth, conduct, attempts, at, 0);
    }
  }

  /** The load of the endpoint as it calls the client: GET with the default retry count. */
  lemma DefaultLoadBound(mesh: Mesh, service: string, depth: nat, conduct: Conduct, config: Config, k: nat)
    requires AtMostConnections(mesh, k) && config.defaultRetries >= 0
    ensures Load(mesh, service, depth, conduct, Attempts(config, Get, None), [])
            <= SumPow((1 + config.defaultRetries) * k, depth)
  {
    LoadBound(mesh, service, depth, conduct, 1 + config.defaultRetries, [], k);
  }
}
