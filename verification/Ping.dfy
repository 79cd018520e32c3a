/**
 The ping endpoint of insanic/monitor.py, which pings the services a service is
 connected to, each with a depth one smaller, over a mesh that may contain cycles.
 */
module Ping {
  import opened Wrappers

  /** One service: the names it is connected to, and those its registry can resolve. */
  datatype Node = Node(connections: seq<string>, registry: set<string>)

  type Mesh = map<string, Node>

  function Resolved(names: seq<string>, registry: set<string>): seq<string> {
    if names == [] then []
    else if names[0] in registry then [names[0]] + Resolved(names[1..], registry)
    else Resolved(names[1..], registry)
  }

  /** The services that a service pings, in order, with repetitions. */
  function Targets(mesh: Mesh, service: string): seq<string> {
    if service in mesh then Resolved(mesh[service].connections, mesh[service].registry) else []
  }

  // ----- walks -----

  /** A walk is the list of connection numbers to follow. */
  predicate IsWalk(mesh: Mesh, from: string, walk: seq<nat>)
    decreases |walk|
  {
    |walk| == 0 || (walk[0] < |Targets(mesh, from)| && IsWalk(mesh, Targets(mesh, from)[walk[0]], walk[1..]))
  }

  function End(mesh: Mesh, from: string, walk: seq<nat>): string
    requires IsWalk(mesh, from, walk)
    decreases |walk|
  {
    if |walk| == 0 then from else End(mesh, Targets(mesh, from)[walk[0]], walk[1..])
  }

  // ----- the endpoint -----

  datatype Reply = Pong | Nested(replies: map<string, Reply>) | Unresolved

  function ReplyOf(mesh: Mesh, service: string, depth: nat): Reply
    decreases depth
  {
    if depth == 0 || service !in mesh || mesh[service].connections == [] then Pong
    else Nested(map name | name in mesh[service].connections ::
                  if name in mesh[service].registry then ReplyOf(mesh, name, depth - 1) else Unresolved)
  }

  function Prefixed(i: nat, walks: seq<seq<nat>>): seq<seq<nat>> {
    seq(|walks|, j requires 0 <= j < |walks| => [i] + walks[j])
  }

  /** The onward pings that one ping causes, each named by the walk that leads to it. */
  function Pings(mesh: Mesh, service: string, depth: nat): seq<seq<nat>>
    decreases depth, |Targets(mesh, service)| + 1
  {
    if depth == 0 then [] else PingsFrom(mesh, service, depth, 0)
  }

  function PingsFrom(mesh: Mesh, service: string, depth: nat, i: nat): seq<seq<nat>>
    requires depth > 0 && i <= |Targets(mesh, service)|
    decreases depth, |Targets(mesh, service)| - i
  {
    if i == |Targets(mesh, service)| then []
    else [[i]] + Prefixed(i, Pings(mesh, Targets(mesh, service)[i], depth - 1)) + PingsFrom(mesh, service, depth, i + 1)
  }

  /** What the first loop has collected: a task per resolved name, an error per unresolved one. */
  ghost predicate Collected(mesh: Mesh, node: Node, depth: nat, names: seq<string>,
                            tasks: map<string, Reply>, responses: map<string, Reply>)
    requires depth > 0
  {
    && (forall name :: name in tasks <==> name in names && name in node.registry)
    && (forall name :: name in responses <==> name in names && name !in node.registry)
    && (forall name :: name in tasks ==> tasks[name] == ReplyOf(mesh, name, depth - 1))
    && (forall name :: name in responses ==> responses[name] == Unresolved)
  }

  /** `PingPongView.get` for depth >= 0, with the pings it sends onward carried out. */
  method Get(mesh: Mesh, service: string, depth: nat) returns (reply: Reply, sent: nat)
    ensures reply == ReplyOf(mesh, service, depth)
    ensures sent == |Pings(mesh, service, depth)|
    decreases depth
  {
    hide Targets, Resolved, Pings, PingsFrom, ReplyOf, Collected;
    sent := 0;
    if depth == 0 || service !in mesh || mesh[service].connections == [] {
      PongOnly(mesh, service, depth);
      return Pong, 0;
    }
    var node := mesh[service];
    var tasks: map<string, Reply> := map[];
    var responses: map<string, Reply> := map[];
    ghost var k := 0;
    TargetsOfNode(mesh, service);
    assert node.connections[..0] == [];
    NothingCollected(mesh, node, depth);
    for i := 0 to |node.connections|
      invariant Collected(mesh, node, depth, node.connections[..i], tasks, responses)
      invariant k == |Resolved(node.connections[..i], node.registry)| <= |Targets(mesh, service)|
      invariant sent + |PingsFrom(mesh, service, depth, k)| == |PingsFrom(mesh, service, depth, 0)|
    {
      var name := node.connections[i];
      ResolvedStep(node.connections, node.registry, i);
      assert node.connections[..i + 1] == node.connections[..i] + [name];
      CollectedStep(mesh, node, depth, node.connections[..i], name, tasks, responses);
      PingsFromStep(mesh, service, depth, k);
      if name !in node.registry {
        responses := responses[name := Unresolved];
      } else {
        var answer, below := Get(mesh, name, depth - 1);
        tasks := tasks[name := answer];
        sent := sent + 1 + below;
        k := k + 1;
      }
    }
    assert node.connections[..|node.connections|] == node.connections;
    PingsFromStep(mesh, service, depth, k);
    NestedReply(mesh, service, depth, tasks, responses);
    var all := Merge(tasks, responses);
    reply := Nested(all);
  }

  /** The second loop: every finished task's result is added to the responses. */
  method Merge(tasks: map<string, Reply>, responses: map<string, Reply>) returns (all: map<string, Reply>)
    ensures all == responses + tasks
  {
    all := responses;
    var waiting := tasks.Keys;
    while waiting != {}
      invariant waiting <= tasks.Keys
      invariant all == responses + (tasks - waiting)
      decreases waiting
    {
      var name :| name in waiting;
      all := all[name := tasks[name]];
      waiting := waiting - {name};
    }
  }

  lemma PongOnly(mesh: Mesh, service: string, depth: nat)
    requires depth == 0 || service !in mesh || mesh[service].connections == []
    ensures ReplyOf(mesh, service, depth) == Pong && Pings(mesh, service, depth) == []
  {
  }

  lemma NestedReply(mesh: Mesh, service: string, depth: nat, tasks: map<string, Reply>, responses: map<string, Reply>)
    requires depth > 0 && service in mesh && mesh[service].connections != []
    requires Collected(mesh, mesh[service], depth, mesh[service].connections, tasks, responses)
    ensures ReplyOf(mesh, service, depth) == Nested(responses + tasks)
    ensures Pings(mesh, service, depth) == PingsFrom(mesh, service, depth, 0)
  {
  }

  lemma CollectedStep(mesh: Mesh, node: Node, depth: nat, names: seq<string>, name: string,
                      tasks: map<string, Reply>, responses: map<string, Reply>)
    requires depth > 0 && Collected(mesh, node, depth, names, tasks, responses)
    ensures name in node.registry ==>
              Collected(mesh, node, depth, names + [name], tasks[name := ReplyOf(mesh, name, depth - 1)], responses)
    ensures name !in node.registry ==>
              Collected(mesh, node, depth, names + [name], tasks, responses[name := Unresolved])
  {
  }

  lemma PingsFromStep(mesh: Mesh, service: string, depth: nat, i: nat)
    requires depth > 0 && i <= |Targets(mesh, service)|
    ensures i == |Targets(mesh, service)| ==> PingsFrom(mesh, service, depth, i) == []
    ensures i < |Targets(mesh, service)| ==>
              |PingsFrom(mesh, service, depth, i)|
              == 1 + |Pings(mesh, Targets(mesh, service)[i], depth - 1)| + |PingsFrom(mesh, service, depth, i + 1)|
  {
  }

  lemma NothingCollected(mesh: Mesh, node: Node, depth: nat)
    requires depth > 0
    ensures Collected(mesh, node, depth, [], map[], map[])
  {
  }

  lemma TargetsOfNode(mesh: Mesh, service: string)
    requires service in mesh
    ensures Targets(mesh, service) == Resolved(mesh[service].connections, mesh[service].registry)
    ensures Resolved(mesh[service].connections[..0], mesh[service].registry) == []
    ensures Resolved(mesh[service].connections[..|mesh[service].connections|], mesh[service].registry) == Targets(mesh, service)
  {
    var names := mesh[service].connections;
    assert names[..0] == [] && names[..|names|] == names;
  }

  lemma {:induction false} ResolvedConcat(a: seq<string>, b: seq<string>, registry: set<string>)
    ensures Resolved(a + b, registry) == Resolved(a, registry) + Resolved(b, registry)
  {
    if a == [] {
      assert a + b == b;
    } else {
      assert (a + b)[1..] == a[1..] + b;
      ResolvedConcat(a[1..], b, registry);
    }
  }

  /** The i-th name, if resolved, is the target numbered by the resolved names before it. */
  lemma ResolvedStep(names: seq<string>, registry: set<string>, i: nat)
    requires i < |names|
    ensures var k := |Resolved(names[..i], registry)|;
            if names[i] in registry
            then |Resolved(names[..i + 1], registry)| == k + 1 <= |Resolved(names, registry)|
                 && Resolved(names, registry)[k] == names[i]
            else |Resolved(names[..i + 1], registry)| == k <= |Resolved(names, registry)|
  {
    assert names[..i + 1] == names[..i] + [names[i]];
    ResolvedConcat(names[..i], [names[i]], registry);
    assert names == names[..i + 1] + names[i + 1..];
    ResolvedConcat(names[..i + 1], names[i + 1..], registry);
  }

  // ----- exactly one ping per walk -----

  ghost predicate Distinct(walks: seq<seq<nat>>) {
    forall i, j :: 0 <= i < j < |walks| ==> walks[i] != walks[j]
  }

  ghost predicate IsListed(mesh: Mesh, service: string, depth: nat, first: nat, walk: seq<nat>) {
    1 <= |walk| <= depth && first <= walk[0] && IsWalk(mesh, service, walk)
  }

  lemma PrefixedShape(i: nat, walks: seq<seq<nat>>)
    ensures |Prefixed(i, walks)| == |walks|
    ensures forall w :: w in Prefixed(i, walks) <==> w != [] && w[0] == i && w[1..] in walks
    ensures Distinct(walks) ==> Distinct(Prefixed(i, walks))
  {
    var ps := Prefixed(i, walks);
    forall w | w in ps ensures w != [] && w[0] == i && w[1..] in walks {
      var j :| 0 <= j < |ps| && ps[j] == w;
      assert w[1..] == walks[j];
    }
    forall w: seq<nat> | w != [] && w[0] == i && w[1..] in walks ensures w in ps {
      var j :| 0 <= j < |walks| && walks[j] == w[1..];
      assert ps[j] == w;
    }
    forall a, b | 0 <= a < b < |ps| && Distinct(walks) ensures ps[a] != ps[b] {
      assert ps[a][1..] == walks[a] && ps[b][1..] == walks[b];
    }
  }

  lemma DistinctConcat(a: seq<seq<nat>>, b: seq<seq<nat>>)
    requires Distinct(a) && Distinct(b)
    requires forall w :: w in a ==> w !in b
    ensures Distinct(a + b)
  {
    var s := a + b;
    forall i, j | 0 <= i < j < |s| ensures s[i] != s[j] {
      if i < |a| <= j {
        assert s[i] in a && s[j] in b;
      }
    }
  }

  /** From connection `first` on, the pings are the walks that start there, each once. */
  lemma {:induction false} PingsFromAreWalks(mesh: Mesh, service: string, depth: nat, first: nat)
    requires depth > 0 && first <= |Targets(mesh, service)|
    ensures Distinct(PingsFrom(mesh, service, depth, first))
    ensures forall w :: w in PingsFrom(mesh, service, depth, first) <==> IsListed(mesh, service, depth, first, w)
    decreases depth, |Targets(mesh, service)| - first
  {
    hide Distinct, IsListed, Targets, Prefixed;
    if first < |Targets(mesh, service)| {
      var child := Targets(mesh, service)[first];
      PingsAreWalks(mesh, child, depth - 1);
      PingsFromAreWalks(mesh, service, depth, first + 1);
      PrefixedShape(first, Pings(mesh, child, depth - 1));
      Assemble(mesh, service, depth, first, Pings(mesh, child, depth - 1),
               Prefixed(first, Pings(mesh, child, depth - 1)), PingsFrom(mesh, service, depth, first + 1));
    } else {
      NothingListed(mesh, service, depth, first);
    }
  }

  lemma NothingListed(mesh: Mesh, service: string, depth: nat, first: nat)
    requires first >= |Targets(mesh, service)|
    ensures Distinct([]) && forall w :: !IsListed(mesh, service, depth, first, w)
  {
  }

  lemma Assemble(mesh: Mesh, service: string, depth: nat, first: nat,
                 below: seq<seq<nat>>, through: seq<seq<nat>>, rest: seq<seq<nat>>)
    requires depth > 0 && first < |Targets(mesh, service)|
    requires forall w :: w in below <==> 1 <= |w| <= depth - 1 && IsWalk(mesh, Targets(mesh, service)[first], w)
    requires Distinct(through) && Distinct(rest)
    requires forall w :: w in through <==> w != [] && w[0] == first && w[1..] in below
    requires forall w :: w in rest <==> IsListed(mesh, service, depth, first + 1, w)
    ensures Distinct([[first]] + through + rest)
    ensures forall w :: w in [[first]] + through + rest <==> IsListed(mesh, service, depth, first, w)
  {
    hide Distinct, Targets;
    var one: seq<seq<nat>> := [[first]];
    assert one[0][1..] == [];
    assert Distinct(one) by {
      Single(one);
    }
    assert [] !in below;
    DistinctConcat(one, through);
    forall w | w in one + through ensures w !in rest {
      assert w[0] == first;
    }
    DistinctConcat(one + through, rest);
    forall w ensures w in one + through + rest <==> IsListed(mesh, service, depth, first, w) {
      ThroughFirst(mesh, service, depth, first, below, w);
      assert w in one + through + rest <==> w == [first] || w in through || w in rest;
    }
  }

  lemma Single(one: seq<seq<nat>>)
    requires |one| == 1
    ensures Distinct(one)
  {
  }

  lemma ThroughFirst(mesh: Mesh, service: string, depth: nat, first: nat, below: seq<seq<nat>>, w: seq<nat>)
    requires depth > 0 && first < |Targets(mesh, service)|
    requires forall w :: w in below <==> 1 <= |w| <= depth - 1 && IsWalk(mesh, Targets(mesh, service)[first], w)
    ensures IsListed(mesh, service, depth, first, w) <==>
            || w == [first]
            || (w != [] && w[0] == first && w[1..] in below)
            || IsListed(mesh, service, depth, first + 1, w)
  {
    hide Targets;
    if w != [] && w[0] == first {
      assert IsWalk(mesh, service, w) <==> IsWalk(mesh, Targets(mesh, service)[first], w[1..]);
      assert |w| == 1 <==> w == [first];
    }
  }

  /** A ping of depth d causes exactly one onward ping for each connection walk of length 1..d. */
  lemma {:induction false} PingsAreWalks(mesh: Mesh, service: string, depth: nat)
    ensures Distinct(Pings(mesh, service, depth))
    ensures forall w :: w in Pings(mesh, service, depth) <==> 1 <= |w| <= depth && IsWalk(mesh, service, w)
    decreases depth, |Targets(mesh, service)| + 1
  {
    if depth > 0 {
      PingsFromAreWalks(mesh, service, depth, 0);
      assert forall w :: IsListed(mesh, service, depth, 0, w) <==> 1 <= |w| <= depth && IsWalk(mesh, service, w);
    }
  }

  // ----- the reply is the map of the mesh -----

  /** The names that a walk passes through. */
  function Names(mesh: Mesh, from: string, walk: seq<nat>): seq<string>
    requires IsWalk(mesh, from, walk)
    decreases |walk|
  {
    if |walk| == 0 then []
    else [Targets(mesh, from)[walk[0]]] + Names(mesh, Targets(mesh, from)[walk[0]], walk[1..])
  }

  /** The part of a reply found under a path of names. */
  function Find(reply: Reply, path: seq<string>): Option<Reply>
    decreases |path|
  {
    if path == [] then Some(reply)
    else if reply.Nested? && path[0] in reply.replies then Find(reply.replies[path[0]], path[1..])
    else None
  }

  lemma {:induction false} ResolvedMember(names: seq<string>, registry: set<string>, i: nat)
    requires i < |Resolved(names, registry)|
    ensures Resolved(names, registry)[i] in names && Resolved(names, registry)[i] in registry
  {
    if names[0] in registry {
      if i > 0 {
        ResolvedMember(names[1..], registry, i - 1);
      }
    } else {
      ResolvedMember(names[1..], registry, i);
    }
  }

  /** Along every walk no longer than the depth, the reply holds what the service at its end answers. */
  lemma {:induction false} ReplyShowsEveryWalk(mesh: Mesh, service: string, depth: nat, walk: seq<nat>)
    requires IsWalk(mesh, service, walk) && |walk| <= depth
    ensures Find(ReplyOf(mesh, service, depth), Names(mesh, service, walk))
            == Some(ReplyOf(mesh, End(mesh, service, walk), depth - |walk|))
    decreases |walk|
  {
    if |walk| > 0 {
      var node, next := mesh[service], Targets(mesh, service)[walk[0]];
      ResolvedMember(node.connections, node.registry, walk[0]);
      ReplyShowsEveryWalk(mesh, next, depth - 1, walk[1..]);
      assert Names(mesh, service, walk)[1..] == Names(mesh, next, walk[1..]);
      assert ReplyOf(mesh, service, depth).replies[next] == ReplyOf(mesh, next, depth - 1);
    }
  }

  /** A service answers pong exactly at depth 0 or without connections, and marks exactly the names it cannot resolve. */
  lemma ReplyShape(mesh: Mesh, service: string, depth: nat)
    requires service in mesh
    ensures var reply, node := ReplyOf(mesh, service, depth), mesh[service];
            && (reply.Pong? <==> depth == 0 || node.connections == [])
            && (!reply.Pong? ==>
                  && reply.Nested?
                  && (forall name :: name in reply.replies <==> name in node.connections)
                  && forall name :: name in reply.replies ==> (reply.replies[name].Unresolved? <==> name !in node.registry))
  {
  }
}
