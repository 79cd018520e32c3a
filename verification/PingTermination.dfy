/**
 When a ping's onward traffic ends. A positive depth runs out; a negative one is truthy
 for ever, so only services without connections stop the recursion.
 */
module PingTermination {
  import opened Ping

  /** The finite tree of pings that one ping causes. */
  datatype Tree = Tree(children: seq<Tree>)

  /** The services pinged at this depth; any depth but 0 counts as true. */
  function Children(mesh: Mesh, service: string, depth: int): seq<string> {
    if depth == 0 then [] else Targets(mesh, service)
  }

  /** The tree is all the traffic of one ping. */
  ghost predicate Completes(mesh: Mesh, service: string, depth: int, tree: Tree)
    decreases tree
  {
    var next := Children(mesh, service, depth);
    && |tree.children| == |next|
    && forall i :: 0 <= i < |tree.children| ==> Completes(mesh, next[i], depth - 1, tree.children[i])
  }

  ghost predicate Finite(mesh: Mesh, service: string, depth: int) {
    exists tree :: Completes(mesh, service, depth, tree)
  }

  /** A walk from the service reaches a non-empty walk that returns to where it started. */
  ghost predicate CycleReachable(mesh: Mesh, service: string) {
    exists p, q :: Loops(mesh, service, p, q)
  }

  ghost predicate Loops(mesh: Mesh, service: string, p: seq<nat>, q: seq<nat>) {
    && IsWalk(mesh, service, p)
    && q != [] && IsWalk(mesh, End(mesh, service, p), q)
    && End(mesh, End(mesh, service, p), q) == End(mesh, service, p)
  }

  // ----- building the tree -----

  lemma {:induction false} Branches(mesh: Mesh, names: seq<string>, depth: int) returns (trees: seq<Tree>)
    requires forall i :: 0 <= i < |names| ==> Finite(mesh, names[i], depth)
    ensures |trees| == |names|
    ensures forall i :: 0 <= i < |names| ==> Completes(mesh, names[i], depth, trees[i])
  {
    if names == [] {
      trees := [];
    } else {
      assert Finite(mesh, names[0], depth);
      var first :| Completes(mesh, names[0], depth, first);
      forall i | 0 <= i < |names[1..]| ensures Finite(mesh, names[1..][i], depth) {
        assert names[1..][i] == names[i + 1];
      }
      var rest := Branches(mesh, names[1..], depth);
      trees := [first] + rest;
      forall i | 0 <= i < |names| ensures Completes(mesh, names[i], depth, trees[i]) {
        if i > 0 {
          assert names[1..][i - 1] == names[i] && trees[i] == rest[i - 1];
        }
      }
    }
  }

  lemma FiniteFromChildren(mesh: Mesh, service: string, depth: int)
    requires forall i :: 0 <= i < |Children(mesh, service, depth)| ==> Finite(mesh, Children(mesh, service, depth)[i], depth - 1)
    ensures Finite(mesh, service, depth)
  {
    var trees := Branches(mesh, Children(mesh, service, depth), depth - 1);
    assert Completes(mesh, service, depth, Tree(trees));
  }

  /** A ping of depth d >= 0 ends in every mesh, cycles included. */
  lemma {:induction false} NonNegativeEnds(mesh: Mesh, service: string, depth: nat)
    ensures Finite(mesh, service, depth)
    decreases depth
  {
    forall i | 0 <= i < |Children(mesh, service, depth)| ensures Finite(mesh, Children(mesh, service, depth)[i], depth - 1) {
      NonNegativeEnds(mesh, Children(mesh, service, depth)[i], depth - 1);
    }
    FiniteFromChildren(mesh, service, depth);
  }

  predicate HasPath(tree: Tree, walk: seq<nat>)
    decreases |walk|
  {
    |walk| == 0 || (walk[0] < |tree.children| && HasPath(tree.children[walk[0]], walk[1..]))
  }

  /** For a depth d >= 0 the tree has exactly the walks of length at most d, so its pings are those of the endpoint. */
  lemma {:induction false} TreeHasWalks(mesh: Mesh, service: string, depth: nat, tree: Tree, walk: seq<nat>)
    requires Completes(mesh, service, depth, tree)
    ensures HasPath(tree, walk) <==> IsWalk(mesh, service, walk) && |walk| <= depth
    ensures walk in Pings(mesh, service, depth) <==> walk != [] && HasPath(tree, walk)
    decreases |walk|
  {
    hide Pings;
    PingsAreWalks(mesh, service, depth);
    if |walk| > 0 && depth > 0 && walk[0] < |Targets(mesh, service)| {
      TreeHasWalks(mesh, Targets(mesh, service)[walk[0]], depth - 1, tree.children[walk[0]], walk[1..]);
    }
  }

  // ----- walks compose -----

  lemma {:induction false} WalkConcat(mesh: Mesh, from: string, p: seq<nat>, q: seq<nat>)
    ensures IsWalk(mesh, from, p + q) <==> IsWalk(mesh, from, p) && IsWalk(mesh, End(mesh, from, p), q)
    ensures IsWalk(mesh, from, p + q) ==> End(mesh, from, p + q) == End(mesh, End(mesh, from, p), q)
    decreases |p|
  {
    if p == [] {
      assert p + q == q;
    } else {
      assert (p + q)[1..] == p[1..] + q;
      if p[0] < |Targets(mesh, from)| {
        WalkConcat(mesh, Targets(mesh, from)[p[0]], p[1..], q);
      }
    }
  }

  // ----- a finite tree has no cycle -----

  /** Below a negative-depth tree, a walk leads to a smaller tree of the same kind. */
  lemma {:induction false} Subtree(mesh: Mesh, service: string, depth: int, tree: Tree, walk: seq<nat>) returns (sub: Tree)
    requires depth < 0 && Completes(mesh, service, depth, tree) && IsWalk(mesh, service, walk)
    ensures Completes(mesh, End(mesh, service, walk), depth - |walk|, sub)
    ensures if walk == [] then sub == tree else sub < tree
    decreases |walk|
  {
    if walk == [] {
      sub := tree;
    } else {
      var child := tree.children[walk[0]];
      sub := Subtree(mesh, Targets(mesh, service)[walk[0]], depth - 1, child, walk[1..]);
    }
  }

  lemma {:induction false} NoFiniteLoop(mesh: Mesh, service: string, depth: int, tree: Tree, q: seq<nat>)
    requires depth < 0 && Completes(mesh, service, depth, tree)
    requires q != [] && IsWalk(mesh, service, q) && End(mesh, service, q) == service
    ensures false
    decreases tree
  {
    var sub := Subtree(mesh, service, depth, tree, q);
    NoFiniteLoop(mesh, service, depth - |q|, sub, q);
  }

  // ----- without a cycle, walks are short -----

  /** The services that a walk leaves, in order. */
  function Visits(mesh: Mesh, from: string, walk: seq<nat>): (visits: seq<string>)
    requires IsWalk(mesh, from, walk)
    ensures |visits| == |walk|
    decreases |walk|
  {
    if |walk| == 0 then [] else [from] + Visits(mesh, Targets(mesh, from)[walk[0]], walk[1..])
  }

  lemma {:induction false} VisitIsEnd(mesh: Mesh, from: string, walk: seq<nat>, i: nat)
    requires IsWalk(mesh, from, walk) && i < |walk|
    ensures IsWalk(mesh, from, walk[..i]) && End(mesh, from, walk[..i]) == Visits(mesh, from, walk)[i]
    ensures Visits(mesh, from, walk)[i] in mesh
    decreases |walk|
  {
    if i > 0 {
      VisitIsEnd(mesh, Targets(mesh, from)[walk[0]], walk[1..], i - 1);
      assert walk[..i][1..] == walk[1..][..i - 1];
    }
  }

  lemma RepeatIsCycle(mesh: Mesh, from: string, walk: seq<nat>, i: nat, j: nat)
    requires IsWalk(mesh, from, walk) && i < j < |walk|
    requires Visits(mesh, from, walk)[i] == Visits(mesh, from, walk)[j]
    ensures CycleReachable(mesh, from)
  {
    VisitIsEnd(mesh, from, walk, i);
    VisitIsEnd(mesh, from, walk, j);
    assert walk[..j] == walk[..i] + walk[i..j];
    WalkConcat(mesh, from, walk[..i], walk[i..j]);
    assert Loops(mesh, from, walk[..i], walk[i..j]);
  }

  lemma {:induction false} DistinctFit(s: seq<string>, all: set<string>)
    requires forall i :: 0 <= i < |s| ==> s[i] in all
    requires forall i, j :: 0 <= i < j < |s| ==> s[i] != s[j]
    ensures |s| <= |all|
  {
    if s != [] {
      var rest := s[1..];
      forall i | 0 <= i < |rest| ensures rest[i] in all - {s[0]} {
        assert rest[i] == s[i + 1];
      }
      DistinctFit(rest, all - {s[0]});
    }
  }

  lemma AcyclicWalksAreShort(mesh: Mesh, from: string, walk: seq<nat>)
    requires !CycleReachable(mesh, from) && IsWalk(mesh, from, walk)
    ensures |walk| <= |mesh.Keys|
  {
    var visits := Visits(mesh, from, walk);
    forall i | 0 <= i < |visits| ensures visits[i] in mesh.Keys {
      VisitIsEnd(mesh, from, walk, i);
    }
    forall i, j | 0 <= i < j < |visits| ensures visits[i] != visits[j] {
      if visits[i] == visits[j] {
        RepeatIsCycle(mesh, from, walk, i, j);
      }
    }
    DistinctFit(visits, mesh.Keys);
  }

  /** If every walk from here that continues a given walk is short, the traffic from here ends. */
  lemma {:induction false} ShortWalksEnd(mesh: Mesh, service: string, depth: int, bound: nat)
    requires depth < 0
    requires forall walk :: IsWalk(mesh, service, walk) ==> |walk| <= bound
    ensures Finite(mesh, service, depth)
    decreases bound
  {
    var next := Targets(mesh, service);
    forall i | 0 <= i < |next| ensures Finite(mesh, next[i], depth - 1) {
      assert IsWalk(mesh, service, [i]) by {
        assert [i][1..] == [];
      }
      forall walk | IsWalk(mesh, next[i], walk) ensures |walk| <= bound - 1 {
        assert ([i] + walk)[1..] == walk;
        assert IsWalk(mesh, service, [i] + walk);
      }
      ShortWalksEnd(mesh, next[i], depth - 1, bound - 1);
    }
    FiniteFromChildren(mesh, service, depth);
  }

  /** With a negative depth the traffic ends exactly when no cycle can be reached. */
  lemma NegativeEndsIffAcyclic(mesh: Mesh, service: string, depth: int)
    requires depth < 0
    ensures Finite(mesh, service, depth) <==> !CycleReachable(mesh, service)
  {
    if !CycleReachable(mesh, service) {
      forall walk | IsWalk(mesh, service, walk) ensures |walk| <= |mesh.Keys| {
        AcyclicWalksAreShort(mesh, service, walk);
      }
      ShortWalksEnd(mesh, service, depth, |mesh.Keys|);
    } else if Finite(mesh, service, depth) {
      var p, q :| Loops(mesh, service, p, q);
      var tree :| Completes(mesh, service, depth, tree);
      var sub := Subtree(mesh, service, depth, tree, p);
      NoFiniteLoop(mesh, End(mesh, service, p), depth - |p|, sub, q);
    }
  }
}
