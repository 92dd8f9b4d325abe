/** The bounded search for a path from this router down to a target, over whatever parent
    links the live topology happens to hold. */
module FederationPaths {
  import opened Results
  import opened Sequences

  type Namespace = string

  /** A topology fact: who the node says its parent is, and whether it was reported. */
  datatype Fact = Fact(parent: Option<Namespace>, reported: bool)

  function Parents(topology: map<Namespace, Fact>): map<Namespace, Option<Namespace>> {
    map n | n in topology && topology[n].reported :: topology[n].parent
  }

  function ParentOf(parents: map<Namespace, Option<Namespace>>, n: Namespace): Option<Namespace> {
    if n in parents then parents[n] else None
  }

  /** The walk along parent links from `w[0]` that stops at the first child of `own`. */
  ghost predicate UpWalk(parents: map<Namespace, Option<Namespace>>, own: Namespace, w: seq<Namespace>) {
    && |w| >= 1
    && (forall i | 0 < i < |w| :: ParentOf(parents, w[i - 1]) == Some(w[i]) && w[i] != own)
    && ParentOf(parents, w[|w| - 1]) == Some(own)
  }

  ghost predicate Reachable(parents: map<Namespace, Option<Namespace>>, own: Namespace, target: Namespace) {
    exists w :: UpWalk(parents, own, w) && w[0] == target
  }

  /** A path down: reversed, it is the walk up from the target, and no node repeats. */
  ghost predicate DownPath(parents: map<Namespace, Option<Namespace>>, own: Namespace, target: Namespace, path: seq<Namespace>) {
    && UpWalk(parents, own, Reverse(path)) && Reverse(path)[0] == target
    && Distinct(path)
  }

  /** At most `bound` steps of that walk. */
  function Climb(parents: map<Namespace, Option<Namespace>>, own: Namespace, current: Namespace, bound: nat)
    : Option<seq<Namespace>>
    decreases bound
  {
    if bound == 0 then None
    else
      match ParentOf(parents, current)
      case None => None
      case Some(parent) =>
        if parent == own then Some([current])
        else
          match Climb(parents, own, parent, bound - 1)
          case None => None
          case Some(rest) => Some([current] + rest)
  }

  /** The rest of the search, with the nodes met so far. */
  function Search(parents: map<Namespace, Option<Namespace>>, own: Namespace, current: Option<Namespace>,
                  chain: seq<Namespace>, bound: nat): Option<seq<Namespace>>
    decreases bound
  {
    if bound == 0 || current.None? then None
    else
      var parent := ParentOf(parents, current.value);
      if parent == Some(own) then Some(Reverse(chain + [current.value]))
      else Search(parents, own, parent, chain + [current.value], bound - 1)
  }

  lemma {:induction false} SearchIsClimb(parents: map<Namespace, Option<Namespace>>, own: Namespace, current: Namespace,
                                         chain: seq<Namespace>, bound: nat)
    ensures Search(parents, own, Some(current), chain, bound)
            == (match Climb(parents, own, current, bound)
                case None => None
                case Some(w) => Some(Reverse(chain + w)))
    decreases bound
  {
    if bound > 0 {
      var parent := ParentOf(parents, current);
      if parent.Some? && parent.value != own {
        SearchIsClimb(parents, own, parent.value, chain + [current], bound - 1);
        var w := Climb(parents, own, parent.value, bound - 1);
        assert w.Some? ==> (chain + [current]) + w.value == chain + ([current] + w.value);
      } else if parent.None? && bound > 1 {
        assert Search(parents, own, parent, chain + [current], bound - 1) == None;
      }
    }
  }

  /** The answer of the search, in full. */
  function PathOf(own: Namespace, target: Namespace, topology: map<Namespace, Fact>): Option<seq<Namespace>> {
    if target == own then Some([]) else Search(Parents(topology), own, Some(target), [], |Parents(topology)| + 1)
  }

  /** `path_to`: none of the three answers depends on the topology being a tree. */
  method PathTo(own: Namespace, target: Namespace, topology: map<Namespace, Fact>) returns (path: Option<seq<Namespace>>)
    ensures path == PathOf(own, target, topology)
    ensures target == own ==> path == Some([])
    ensures target != own ==> (path.Some? <==> Reachable(Parents(topology), own, target))
    ensures target != own && path.Some? ==> DownPath(Parents(topology), own, target, path.value)
  {
    if target == own {
      return Some([]);
    }
    var parents := Parents(topology);
    var chain: seq<Namespace> := [];
    var current := Some(target);
    var round := 0;
    PathIsExact(parents, own, target);
    while round < |parents| + 1
      invariant 0 <= round <= |parents| + 1
      invariant Search(parents, own, current, chain, |parents| + 1 - round)
                == Search(parents, own, Some(target), [], |parents| + 1)
    {
      if current.None? {
        return None;
      }
      chain := chain + [current.value];
      var parent := ParentOf(parents, current.value);
      if parent == Some(own) {
        return Some(Reverse(chain));
      }
      current := parent;
      round := round + 1;
    }
    return None;
  }

  lemma PathIsExact(parents: map<Namespace, Option<Namespace>>, own: Namespace, target: Namespace)
    ensures var path := Search(parents, own, Some(target), [], |parents| + 1);
            && (path.Some? <==> Reachable(parents, own, target))
            && (path.Some? ==> DownPath(parents, own, target, path.value))
  {
    SearchIsExact(parents, own, target);
    SearchIsClimb(parents, own, target, [], |parents| + 1);
    var answer := Climb(parents, own, target, |parents| + 1);
    if answer.Some? {
      assert [] + answer.value == answer.value;
      assert Search(parents, own, Some(target), [], |parents| + 1) == Some(Reverse(answer.value));
      ReverseFacts(answer.value);
    }
  }

  /** The ends of a path down: its last node is the target, its first a child of this router. */
  lemma DownPathEnds(parents: map<Namespace, Option<Namespace>>, own: Namespace, target: Namespace, path: seq<Namespace>)
    requires DownPath(parents, own, target, path)
    ensures |path| >= 1 && path[|path| - 1] == target && ParentOf(parents, path[0]) == Some(own)
  {}

  /** A node has reported the one before it on a path as its parent, the first one this router. */
  predicate Told(topology: map<Namespace, Fact>, own: Namespace, path: seq<Namespace>, i: nat)
    requires i < |path|
  {
    && path[i] != own && path[i] in topology && topology[path[i]].reported
    && topology[path[i]].parent == Some(if i == 0 then own else path[i - 1])
  }

  /** A path that the topology tells of, down to the target. */
  predicate LeadsDown(topology: map<Namespace, Fact>, own: Namespace, target: Namespace, path: seq<Namespace>) {
    |path| >= 1 && path[|path| - 1] == target && forall i | 0 <= i < |path| :: Told(topology, own, path, i)
  }

  lemma ToldIsParent(topology: map<Namespace, Fact>, own: Namespace, path: seq<Namespace>, i: nat)
    requires i < |path|
    ensures Told(topology, own, path, i) <==>
            path[i] != own && ParentOf(Parents(topology), path[i]) == Some(if i == 0 then own else path[i - 1])
  {}

  lemma UpWalkPrepend(parents: map<Namespace, Option<Namespace>>, own: Namespace, x: Namespace, w: seq<Namespace>)
    requires UpWalk(parents, own, w) && ParentOf(parents, x) == Some(w[0]) && w[0] != own
    ensures UpWalk(parents, own, [x] + w)
  {
    hide ParentOf;
    var all := [x] + w;
    forall i | 0 < i < |all|
      ensures ParentOf(parents, all[i - 1]) == Some(all[i]) && all[i] != own
    {
      if i > 1 {
        var j := i - 1;
        assert ParentOf(parents, w[j - 1]) == Some(w[j]);
      }
    }
  }

  lemma {:induction false} ToldWalksUp(topology: map<Namespace, Fact>, own: Namespace, path: seq<Namespace>)
    requires |path| >= 1 && forall i | 0 <= i < |path| :: Told(topology, own, path, i)
    ensures UpWalk(Parents(topology), own, Reverse(path)) && Reverse(path)[0] == path[|path| - 1]
  {
    var n := |path| - 1;
    var last, prefix := path[n], path[..n];
    assert path == prefix + [last];
    ReverseAppend(prefix, last);
    ToldIsParent(topology, own, path, n);
    if n > 0 {
      assert forall i | 0 <= i < n :: Told(topology, own, path, i) ==> Told(topology, own, prefix, i);
      ToldWalksUp(topology, own, prefix);
      hide Parents, ParentOf, Reverse, UpWalk;
      assert Told(topology, own, path, n - 1);
      UpWalkPrepend(Parents(topology), own, last, Reverse(prefix));
    } else {
      assert Told(topology, own, path, 0);
      assert prefix == [] && Reverse(prefix) == [] && Reverse(path) == [last];
    }
  }

  lemma ToldIsUpWalk(topology: map<Namespace, Fact>, own: Namespace, target: Namespace, path: seq<Namespace>)
    requires LeadsDown(topology, own, target, path)
    ensures DownPath(Parents(topology), own, target, path)
  {
    ToldWalksUp(topology, own, path);
    hide Parents, Told, UpWalk;
    UpWalkIsDistinct(Parents(topology), own, Reverse(path));
    ReverseFacts(Reverse(path));
    ReverseFacts(path);
    assert Reverse(path)[0] == target;
  }

  lemma UpWalkIsTold(topology: map<Namespace, Fact>, own: Namespace, target: Namespace, path: seq<Namespace>)
    requires target != own && DownPath(Parents(topology), own, target, path)
    ensures LeadsDown(topology, own, target, path)
  {
    hide Parents, ParentOf, Told;
    var parents, w, n := Parents(topology), Reverse(path), |path|;
    assert w[n - 1] == path[0] && w[0] == path[n - 1];
    forall i | 0 <= i < n
      ensures Told(topology, own, path, i)
    {
      var j := n - 1 - i;
      assert w[j] == path[i];
      if i > 0 {
        assert w[(j + 1) - 1] == path[i] && w[j + 1] == path[i - 1];
      }
      assert j > 0 ==> w[j] != own;
      ToldIsParent(topology, own, path, i);
    }
  }

  /** An answer is a path that the topology tells of, and there is no other. */
  lemma PathIsTheDownPath(own: Namespace, target: Namespace, topology: map<Namespace, Fact>, path: seq<Namespace>)
    requires target != own
    ensures PathOf(own, target, topology) == Some(path) <==> LeadsDown(topology, own, target, path)
  {
    if LeadsDown(topology, own, target, path) {
      ToldIsUpWalk(topology, own, target, path);
    }
    if DownPath(Parents(topology), own, target, path) {
      UpWalkIsTold(topology, own, target, path);
    }
    hide LeadsDown;
    var parents := Parents(topology);
    PathIsExact(parents, own, target);
    if DownPath(parents, own, target, path) {
      assert Reachable(parents, own, target);
      var found := PathOf(own, target, topology).value;
      UpWalkIsUnique(parents, own, Reverse(path), Reverse(found));
      ReverseFacts(path);
      ReverseFacts(found);
    }
  }

  lemma UpWalkIsUnique(parents: map<Namespace, Option<Namespace>>, own: Namespace, v: seq<Namespace>, w: seq<Namespace>)
    requires UpWalk(parents, own, v) && UpWalk(parents, own, w) && v[0] == w[0]
    ensures v == w
  {
    UpWalkIsClimbed(parents, own, v, |v| + |w|);
    UpWalkIsClimbed(parents, own, w, |v| + |w|);
  }

  /** Every node of an answer is in the topology. */
  lemma PathIsKnown(own: Namespace, target: Namespace, topology: map<Namespace, Fact>)
    requires PathOf(own, target, topology).Some?
    ensures forall n | n in PathOf(own, target, topology).value :: n in topology
  {
    if target != own {
      var parents, path := Parents(topology), PathOf(own, target, topology).value;
      PathIsExact(parents, own, target);
      var w := Reverse(path);
      forall i | 0 <= i < |path|
        ensures path[i] in topology
      {
        var j := |path| - 1 - i;
        assert w[j] == path[i];
        assert j + 1 < |w| ==> ParentOf(parents, w[(j + 1) - 1]) == Some(w[j + 1]);
      }
    }
  }

  lemma {:induction false} ClimbIsUpWalk(parents: map<Namespace, Option<Namespace>>, own: Namespace, current: Namespace, bound: nat)
    requires Climb(parents, own, current, bound).Some?
    ensures var w := Climb(parents, own, current, bound).value;
            UpWalk(parents, own, w) && w[0] == current
    decreases bound
  {
    var parent := ParentOf(parents, current).value;
    if parent != own {
      ClimbIsUpWalk(parents, own, parent, bound - 1);
      var rest := Climb(parents, own, parent, bound - 1).value;
      var w := [current] + rest;
      forall i | 0 < i < |w|
        ensures ParentOf(parents, w[i - 1]) == Some(w[i]) && w[i] != own
      {
        assert w[i] == rest[i - 1] && (i > 1 ==> w[i - 1] == rest[i - 2]);
      }
    }
  }

  lemma UpWalkTail(parents: map<Namespace, Option<Namespace>>, own: Namespace, w: seq<Namespace>, i: nat)
    requires UpWalk(parents, own, w) && i < |w|
    ensures UpWalk(parents, own, w[i..])
  {}

  lemma {:induction false} UpWalkIsClimbed(parents: map<Namespace, Option<Namespace>>, own: Namespace, w: seq<Namespace>, bound: nat)
    requires UpWalk(parents, own, w) && bound >= |w|
    ensures Climb(parents, own, w[0], bound) == Some(w)
    decreases bound
  {
    if |w| > 1 {
      assert w[1] != own;
      UpWalkTail(parents, own, w, 1);
      UpWalkIsClimbed(parents, own, w[1..], bound - 1);
    }
    assert w == [w[0]] + w[1..];
    assert |w| == 1 ==> w == [w[0]];
  }

  /** A node has one walk, so a walk that reaches this router never comes back to a node. */
  lemma UpWalkIsDistinct(parents: map<Namespace, Option<Namespace>>, own: Namespace, w: seq<Namespace>)
    requires UpWalk(parents, own, w)
    ensures Distinct(w)
  {
    forall i, j | 0 <= i < j < |w|
      ensures w[i] != w[j]
    {
      UpWalkTail(parents, own, w, i);
      UpWalkTail(parents, own, w, j);
      UpWalkIsClimbed(parents, own, w[i..], |w|);
      UpWalkIsClimbed(parents, own, w[j..], |w|);
    }
  }

  /** The bound loses nothing: the search finds exactly the walks there are. */
  lemma SearchIsExact(parents: map<Namespace, Option<Namespace>>, own: Namespace, target: Namespace)
    ensures var answer := Climb(parents, own, target, |parents| + 1);
            && (answer.Some? <==> Reachable(parents, own, target))
            && (answer.Some? ==> UpWalk(parents, own, answer.value) && answer.value[0] == target && Distinct(answer.value))
  {
    var answer := Climb(parents, own, target, |parents| + 1);
    if answer.Some? {
      ClimbIsUpWalk(parents, own, target, |parents| + 1);
      UpWalkIsDistinct(parents, own, answer.value);
    }
    forall w | UpWalk(parents, own, w) && w[0] == target
      ensures answer == Some(w)
    {
      UpWalkIsDistinct(parents, own, w);
      forall i | 0 <= i < |w|
        ensures w[i] in parents.Keys
      {
        assert i + 1 < |w| ==> ParentOf(parents, w[(i + 1) - 1]) == Some(w[i + 1]);
      }
      DistinctFits(w, parents.Keys);
      assert |parents.Keys| == |parents|;
      UpWalkIsClimbed(parents, own, w, |parents| + 1);
    }
  }
}
