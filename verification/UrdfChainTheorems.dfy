/** What the outcomes of the chain walk mean for the joints as a graph. */
module UrdfChainTheorems {
  import opened Wrappers
  import opened Sequences
  import opened UrdfChain

  // ----- trails are forced

  /** Two trails from the root agree as far as the shorter one goes. */
  lemma {:induction false} TrailsAgree(joints: seq<ParsedJoint>, root: string,
                                       p: seq<ParsedJoint>, q: seq<ParsedJoint>, n: nat)
    requires Trail(joints, root, p) && Trail(joints, root, q)
    requires n <= |p| && n <= |q|
    ensures forall i :: 0 <= i < n ==> p[i] == q[i]
    ensures LinkAt(root, p, n) == LinkAt(root, q, n)
  {
    if n != 0 {
      TrailsAgree(joints, root, p, q, n - 1);
      assert [p[n - 1]] == Outgoing(joints, LinkAt(root, p, n - 1)) == [q[n - 1]];
    }
  }

  lemma ChainMembers(joints: seq<ParsedJoint>, path: seq<ParsedJoint>)
    requires IsChainOf(joints, path)
    ensures forall j :: j in joints <==> j in path
    ensures Distinct(path)
    ensures |path| == |joints|
  {
    MembersOfPermutation(joints, path);
    var root := path[0].parentLink;
    forall i, k | 0 <= i < k < |path| ensures path[i] != path[k] {
      assert LinkAt(root, path, i) != LinkAt(root, path, k);
    }
  }

  /** On a chain, the joint that starts at the link reached after `i` joints is the next one. */
  lemma ChainPosition(joints: seq<ParsedJoint>, path: seq<ParsedJoint>, i: nat, j: ParsedJoint)
    requires IsChainOf(joints, path)
    requires i <= |path| && j in path && j.parentLink == LinkAt(path[0].parentLink, path, i)
    ensures i < |path| && path[i] == j
  {
    var root := path[0].parentLink;
    var k: nat :| k < |path| && path[k] == j;
    assert LinkAt(root, path, k) == LinkAt(root, path, i);
  }

  lemma ChainStepIsForced(joints: seq<ParsedJoint>, path: seq<ParsedJoint>, i: nat)
    requires IsChainOf(joints, path) && i < |path|
    ensures Outgoing(joints, LinkAt(path[0].parentLink, path, i)) == [path[i]]
  {
    ChainMembers(joints, path);
    var link := LinkAt(path[0].parentLink, path, i);
    forall j ensures multiset(Outgoing(joints, link))[j] == multiset{path[i]}[j] {
      OutgoingContents(joints, link, j);
      DistinctCount(path, j);
      if j in path && j.parentLink == link {
        ChainPosition(joints, path, i, j);
      }
    }
    assert multiset(Outgoing(joints, link)) == multiset{path[i]};
    OnlyElement(Outgoing(joints, link), path[i]);
  }

  lemma OnlyElement<T(!new)>(s: seq<T>, x: T)
    requires multiset(s) == multiset{x}
    ensures s == [x]
  {
    assert |s| == |multiset(s)|;
    assert s[0] in multiset(s);
  }

  lemma ChainRoot(joints: seq<ParsedJoint>, path: seq<ParsedJoint>)
    requires IsChainOf(joints, path)
    ensures Roots(joints) == {path[0].parentLink}
  {
    ChainMembers(joints, path);
    var root := path[0].parentLink;
    forall i | 0 < i <= |path| ensures LinkAt(root, path, i) in Children(joints) {
      assert path[i - 1] in path;
    }
    forall l | l in Roots(joints) ensures l == root {
      var j :| j in joints && j.parentLink == l;
      var i: nat :| i < |path| && path[i] == j;
      assert LinkAt(root, path, i) == l;
    }
    assert path[0] in path && root in Parents(joints);
    forall j | j in joints ensures j.childLink != root {
      var i: nat :| i < |path| && path[i] == j;
      assert LinkAt(root, path, i + 1) != LinkAt(root, path, 0);
    }
  }

  /** A chain is the trail from its own first link, which is the only root, to a leaf. */
  lemma ChainIsTrail(joints: seq<ParsedJoint>, path: seq<ParsedJoint>)
    requires IsChainOf(joints, path)
    ensures StopsAtLeaf(joints, path[0].parentLink, path)
    ensures |path| == |joints|
  {
    ChainMembers(joints, path);
    ChainRoot(joints, path);
    var root := path[0].parentLink;
    forall i | 0 <= i < |path| ensures Outgoing(joints, LinkAt(root, path, i)) == [path[i]] {
      ChainStepIsForced(joints, path, i);
    }
    OutgoingEmpty(joints, End(root, path));
    forall j | j in joints ensures j.parentLink != End(root, path) {
      var i: nat :| i < |path| && path[i] == j;
      assert LinkAt(root, path, i) != LinkAt(root, path, |path|);
    }
  }

  lemma FullTrailIsChain(joints: seq<ParsedJoint>, root: string, path: seq<ParsedJoint>)
    requires StopsAtLeaf(joints, root, path)
    requires |path| == |joints|
    ensures IsChainOf(joints, path) && path[0].parentLink == root
  {
    TrailIsConnected(joints, root, path);
    TrailIsSubmultiset(joints, root, path);
    SameSizeSubmultiset(path, joints);
    assert root in Roots(joints);
    assert LinkAt(root, path, 0) == root;
    forall i | 0 <= i < |path| ensures LinkAt(root, path, i) != End(root, path) {
      assert LinkAt(root, path, i) in Passed(root, path);
    }
  }

  lemma SameSizeSubmultiset<T(!new)>(s: seq<T>, t: seq<T>)
    requires multiset(s) <= multiset(t) && |s| == |t|
    ensures multiset(s) == multiset(t)
  {
    assert multiset(t) == multiset(s) + (multiset(t) - multiset(s));
    assert |multiset(t)| == |multiset(s)| + |multiset(t) - multiset(s)|;
  }

  // ----- the main result

  /** A trail that does not outrun a chain is a part of it. */
  lemma TrailWithinChain(joints: seq<ParsedJoint>, chain: seq<ParsedJoint>, root: string, path: seq<ParsedJoint>)
    requires IsChainOf(joints, chain)
    requires Trail(joints, root, path)
    ensures |path| <= |chain| && root == chain[0].parentLink
    ensures forall i {:trigger LinkAt(root, path, i)} :: 0 <= i <= |path| ==>
      LinkAt(root, path, i) == LinkAt(root, chain, i)
  {
    ChainIsTrail(joints, chain);
    assert root in Roots(joints);
    var n := if |path| <= |chain| then |path| else |chain|;
    TrailsAgree(joints, root, path, chain, n);
    assert LinkAt(root, path, n) == LinkAt(root, chain, n);
  }

  /** No trail can close, branch or stop early when the joints form a chain. */
  lemma ChainExcludesErrors(joints: seq<ParsedJoint>, chain: seq<ParsedJoint>, root: string, path: seq<ParsedJoint>)
    requires IsChainOf(joints, chain)
    requires Trail(joints, root, path)
    ensures End(root, path) !in Passed(root, path)
    ensures |Outgoing(joints, End(root, path))| <= 1
    ensures Outgoing(joints, End(root, path)) == [] ==> |path| == |joints|
  {
    TrailWithinChain(joints, chain, root, path);
    ChainIsTrail(joints, chain);
    assert LinkAt(root, chain, |path|) == End(root, path);
  }

  lemma ChainIsUnique(joints: seq<ParsedJoint>, p: seq<ParsedJoint>, q: seq<ParsedJoint>)
    requires IsChainOf(joints, p) && IsChainOf(joints, q)
    ensures p == q
  {
    ChainIsTrail(joints, p);
    ChainIsTrail(joints, q);
    assert p[0].parentLink in Roots(joints);
    TrailsAgree(joints, p[0].parentLink, p, q, |joints|);
  }

  lemma SuccessIsTheChain(joints: seq<ParsedJoint>, path: seq<ParsedJoint>)
    requires Outcome(joints, Success(path))
    ensures IsChainOf(joints, path) && Roots(joints) == {path[0].parentLink}
    ensures forall other :: IsChainOf(joints, other) ==> other == path
  {
    var root :| StopsAtLeaf(joints, root, path);
    FullTrailIsChain(joints, root, path);
    forall other | IsChainOf(joints, other) ensures other == path {
      ChainIsUnique(joints, path, other);
    }
  }

  lemma ErrorMeansNoChain(joints: seq<ParsedJoint>, e: WalkError, chain: seq<ParsedJoint>)
    requires Outcome(joints, Failure(e))
    ensures !IsChainOf(joints, chain)
  {
    if IsChainOf(joints, chain) {
      ChainIsTrail(joints, chain);
      match e
      case NotOneRoot(roots) =>
      case Cycle(link) =>
        var root, path: seq<ParsedJoint> :| ClosesAt(joints, root, path, link);
        ChainExcludesErrors(joints, chain, root, path);
      case Branching(link, _) =>
        var root, path :| Reaches(joints, root, path, link);
        ChainExcludesErrors(joints, chain, root, path);
      case Incomplete(visited, _) =>
        var root, path :| StopsAtLeaf(joints, root, path) && |path| == visited;
        ChainExcludesErrors(joints, chain, root, path);
    }
  }

  /** The walk returns normally exactly when the joints can be ordered as one non-empty simple
      path, and then it returns that path. */
  lemma SucceedsIffChain(joints: seq<ParsedJoint>, r: WalkResult)
    requires Outcome(joints, r)
    ensures r.Success? <==> FormsChain(joints)
    ensures r.Success? ==> IsChainOf(joints, r.value) && Roots(joints) == {r.value[0].parentLink}
    ensures r.Success? ==> forall path :: IsChainOf(joints, path) ==> path == r.value
  {
    match r
    case Success(path) =>
      SuccessIsTheChain(joints, path);
    case Failure(e) =>
      forall chain ensures !IsChainOf(joints, chain) {
        ErrorMeansNoChain(joints, e, chain);
      }
  }

  // ----- the outcome does not depend on the order of the joints

  lemma TrailOfPermutation(joints: seq<ParsedJoint>, others: seq<ParsedJoint>, root: string, path: seq<ParsedJoint>)
    requires multiset(joints) == multiset(others)
    requires Trail(joints, root, path)
    ensures Trail(others, root, path)
  {
    MembersOfPermutation(joints, others);
    forall i | 0 <= i < |path| ensures Outgoing(others, LinkAt(root, path, i)) == [path[i]] {
      SingletonOfPermutation(joints, others, LinkAt(root, path, i), path[i]);
    }
  }

  lemma OutcomeOfPermutation(joints: seq<ParsedJoint>, others: seq<ParsedJoint>, r: WalkResult)
    requires multiset(joints) == multiset(others)
    requires Outcome(joints, r)
    ensures Outcome(others, r)
  {
    MembersOfPermutation(joints, others);
    match r
    case Failure(NotOneRoot(_)) =>
    case Failure(Cycle(link)) =>
      var root, path: seq<ParsedJoint> :| ClosesAt(joints, root, path, link);
      TrailOfPermutation(joints, others, root, path);
      assert ClosesAt(others, root, path, link);
    case Failure(Branching(link, _)) =>
      var root, path :| Reaches(joints, root, path, link);
      TrailOfPermutation(joints, others, root, path);
      OutgoingOfPermutation(joints, others, link);
      assert Reaches(others, root, path, link);
    case Failure(Incomplete(visited, _)) =>
      var root, path :| StopsAtLeaf(joints, root, path) && |path| == visited;
      TrailOfPermutation(joints, others, root, path);
      OutgoingOfPermutation(joints, others, End(root, path));
      assert StopsAtLeaf(others, root, path);
    case Success(path) =>
      var root :| StopsAtLeaf(joints, root, path);
      TrailOfPermutation(joints, others, root, path);
      OutgoingOfPermutation(joints, others, End(root, path));
      assert StopsAtLeaf(others, root, path);
  }

  /** The trail on which an outcome rests: it cannot be followed further. */
  ghost predicate Stuck(joints: seq<ParsedJoint>, root: string, path: seq<ParsedJoint>) {
    && FreshTrail(joints, root, path)
    && (End(root, path) in Passed(root, path) || |Outgoing(joints, End(root, path))| != 1)
  }

  lemma StuckNotLonger(joints: seq<ParsedJoint>, root: string, p: seq<ParsedJoint>, q: seq<ParsedJoint>)
    requires Stuck(joints, root, p) && Stuck(joints, root, q)
    ensures |p| >= |q|
  {
    if |p| < |q| {
      TrailsAgree(joints, root, p, q, |p|);
      assert Outgoing(joints, LinkAt(root, q, |p|)) == [q[|p|]];
      var i: nat :| i < |p| && LinkAt(root, p, i) == End(root, p);
      TrailsAgree(joints, root, p, q, i);
      assert false;
    }
  }

  /** There is only one stuck trail, so every outcome rests on the same one. */
  lemma StuckIsUnique(joints: seq<ParsedJoint>, root: string, p: seq<ParsedJoint>, q: seq<ParsedJoint>)
    requires Stuck(joints, root, p) && Stuck(joints, root, q)
    ensures p == q
  {
    StuckNotLonger(joints, root, p, q);
    StuckNotLonger(joints, root, q, p);
    TrailsAgree(joints, root, p, q, |p|);
  }

  /** What is said of a trail that cannot be followed further. */
  function Report(joints: seq<ParsedJoint>, root: string, path: seq<ParsedJoint>): WalkResult {
    var end := End(root, path);
    if end in Passed(root, path) then Failure(Cycle(end))
    else if Outgoing(joints, end) != [] then Failure(Branching(end, |Outgoing(joints, end)|))
    else if |path| != |joints| then Failure(Incomplete(|path|, |joints|))
    else Success(path)
  }

  lemma StuckTrail(joints: seq<ParsedJoint>, r: WalkResult) returns (root: string, path: seq<ParsedJoint>)
    requires Outcome(joints, r)
    requires !(r.Failure? && r.error.NotOneRoot?)
    ensures Stuck(joints, root, path)
    ensures r == Report(joints, root, path)
  {
    match r
    case Failure(Cycle(link)) =>
      root, path :| ClosesAt(joints, root, path, link);
    case Failure(Branching(link, _)) =>
      root, path :| Reaches(joints, root, path, link);
    case Failure(Incomplete(visited, _)) =>
      root, path :| StopsAtLeaf(joints, root, path) && |path| == visited;
    case Success(p) =>
      path := p;
      root :| StopsAtLeaf(joints, root, path);
  }

  lemma OutcomeIsUnique(joints: seq<ParsedJoint>, r: WalkResult, r': WalkResult)
    requires Outcome(joints, r) && Outcome(joints, r')
    ensures r == r'
  {
    if !(r.Failure? && r.error.NotOneRoot?) && !(r'.Failure? && r'.error.NotOneRoot?) {
      var root, path := StuckTrail(joints, r);
      var root', path' := StuckTrail(joints, r');
      assert root in {root'};
      StuckIsUnique(joints, root, path, path');
    } else if r != r' {
      var root, path := StuckTrail(joints, if r.Failure? && r.error.NotOneRoot? then r' else r);
    }
  }

  /** Every permutation of the joints gives the same chain, or the same error. */
  lemma OrderDoesNotMatter(joints: seq<ParsedJoint>, others: seq<ParsedJoint>, r: WalkResult, r': WalkResult)
    requires multiset(joints) == multiset(others)
    requires Outcome(joints, r) && Outcome(others, r')
    ensures r == r'
  {
    OutcomeOfPermutation(others, joints, r');
    OutcomeIsUnique(joints, r, r');
  }

  // ----- what each rejection says about the graph

  /** `link` is the parent of some joint and the child of none. */
  predicate IsRootLink(joints: seq<ParsedJoint>, link: string) {
    && (exists i :: 0 <= i < |joints| && joints[i].parentLink == link)
    && (forall i :: 0 <= i < |joints| ==> joints[i].childLink != link)
  }

  /** The root error comes exactly when the links that are a parent but never a child are not just one,
      and names them; so it also comes for no joints at all. */
  lemma NotOneRootIff(joints: seq<ParsedJoint>, r: WalkResult, roots: set<string>)
    requires Outcome(joints, r) && forall l :: l in roots <==> IsRootLink(joints, l)
    ensures r == Failure(NotOneRoot(roots)) <==> |roots| != 1
    ensures r.Failure? && r.error.NotOneRoot? ==> r.error.roots == roots
  {
    forall l ensures l in roots <==> l in Roots(joints) {
      if l in Roots(joints) {
        assert l in Parents(joints) && l !in Children(joints);
        forall i | 0 <= i < |joints| ensures joints[i].childLink != l {
          assert joints[i] in joints;
        }
      }
    }
    assert roots == Roots(joints);
    if !(r.Failure? && r.error.NotOneRoot?) {
      var root, path := StuckTrail(joints, r);
      assert Roots(joints) == {root};
    }
  }

  /** The indices of the joints that leave `link`. */
  function LeavingIndices(joints: seq<ParsedJoint>, link: string): set<int> {
    set i | 0 <= i < |joints| && joints[i].parentLink == link
  }

  lemma {:induction false} OutgoingCount(joints: seq<ParsedJoint>, link: string)
    ensures |Outgoing(joints, link)| == |LeavingIndices(joints, link)|
  {
    if joints == [] {
      assert LeavingIndices(joints, link) == {};
    } else {
      var n := |joints| - 1;
      OutgoingCount(joints[..n], link);
      assert LeavingIndices(joints, link) ==
        LeavingIndices(joints[..n], link) + if joints[n].parentLink == link then {n} else {};
    }
  }

  /** The branching error counts all joints that leave its link. */
  lemma BranchingCounts(joints: seq<ParsedJoint>, link: string, n: nat)
    requires Outcome(joints, Failure(Branching(link, n)))
    ensures n == |LeavingIndices(joints, link)| > 1
  {
    OutgoingCount(joints, link);
  }

  /** The error of unused joints counts all joints, and those on the walk from the root to a leaf. */
  lemma IncompleteCounts(joints: seq<ParsedJoint>, visited: nat, total: nat)
    returns (root: string, path: seq<ParsedJoint>)
    requires Outcome(joints, Failure(Incomplete(visited, total)))
    ensures total == |joints| && visited == |path| < total
    ensures IsRootLink(joints, root) && Connected(root, path) && Distinct(path)
    ensures forall j :: j in path ==> j in joints
    ensures forall j :: j in joints ==> j.parentLink != End(root, path)
  {
    root, path :| StopsAtLeaf(joints, root, path) && |path| == visited;
    TrailIsConnected(joints, root, path);
    assert root in Roots(joints);
    forall j | j in joints ensures j.parentLink != End(root, path) && j.childLink != root {
      OutgoingMember(joints, End(root, path), j);
      assert j.childLink in Children(joints);
    }
    var p :| p in joints && p.parentLink == root;
    var i :| 0 <= i < |joints| && joints[i] == p;
    assert joints[i].parentLink == root;
  }

  lemma BranchingMeansTwoOutgoing(joints: seq<ParsedJoint>, link: string, n: nat)
    requires Outcome(joints, Failure(Branching(link, n)))
    ensures exists i, j :: 0 <= i < j < |joints| && joints[i].parentLink == joints[j].parentLink == link
  {
    OutgoingTwo(joints, link);
  }

  lemma RootIsNeverEntered(joints: seq<ParsedJoint>, root: string, j: ParsedJoint)
    requires Roots(joints) == {root} && j in joints
    ensures j.childLink != root
  {
    assert root in Roots(joints);
    assert j.childLink in Children(joints);
  }

  lemma CycleMeansTwoIncoming(joints: seq<ParsedJoint>, link: string)
    requires Outcome(joints, Failure(Cycle(link)))
    ensures exists i, j :: 0 <= i < j < |joints| && joints[i].childLink == joints[j].childLink == link
  {
    var root, path: seq<ParsedJoint> :| ClosesAt(joints, root, path, link);
    var k: nat :| k < |path| && LinkAt(root, path, k) == link;
    var last := |path| - 1;
    TrailStep(joints, root, path, last);
    RootIsNeverEntered(joints, root, path[last]);
    TrailStep(joints, root, path, k - 1);
    assert LinkAt(root, path, k - 1) != LinkAt(root, path, last);
    TwoMembers(joints, path[k - 1], path[last]);
    var i: nat, j: nat :| i < j < |joints| && {joints[i], joints[j]} == {path[k - 1], path[last]};
    assert joints[i] in {path[k - 1], path[last]} && joints[j] in {path[k - 1], path[last]};
    assert joints[i].childLink == joints[j].childLink == link;
  }

  lemma TwoMembers<T(!new)>(s: seq<T>, a: T, b: T)
    requires a in s && b in s && a != b
    ensures exists i, j :: 0 <= i < j < |s| && {s[i], s[j]} == {a, b}
  {
    var i :| 0 <= i < |s| && s[i] == a;
    var j :| 0 <= j < |s| && s[j] == b;
    assert {s[i], s[j]} == {a, b} == {s[j], s[i]};
    if i < j {
      assert {s[i], s[j]} == {a, b};
    } else {
      assert {s[j], s[i]} == {a, b};
    }
  }

  lemma WalkPrepend(before: ParsedJoint, walk: seq<ParsedJoint>)
    requires IsWalk(walk) && before.childLink == walk[0].parentLink
    ensures IsWalk([before] + walk)
  {
    var longer := [before] + walk;
    forall i: nat | i + 1 < |longer| ensures Joined(longer, i) {
      if i > 0 {
        assert Joined(walk, i - 1);
      }
    }
  }

  lemma WalkPrefix(walk: seq<ParsedJoint>, n: nat)
    requires IsWalk(walk) && 0 < n <= |walk|
    ensures IsWalk(walk[..n])
  {
    forall i: nat | i + 1 < n ensures Joined(walk[..n], i) {
      assert Joined(walk, i);
    }
  }

  /** A walk that starts where one of its own joints ends closes there. */
  lemma ClosedWalk(walk: seq<ParsedJoint>, before: ParsedJoint) returns (cycle: seq<ParsedJoint>)
    requires IsWalk(walk) && before in walk && before.childLink == walk[0].parentLink
    ensures IsDirectedCycle(cycle) && Members(cycle) <= Members(walk)
  {
    var k :| 0 <= k < |walk| && walk[k] == before;
    cycle := walk[..k + 1];
    WalkPrefix(walk, k + 1);
  }

  /** Following incoming joints backwards within a finite set that has one for every parent link
      must close a cycle.  `walk` is the part already followed. */
  lemma {:induction false} PredecessorsCloseACycle(left: set<ParsedJoint>, walk: seq<ParsedJoint>)
    returns (cycle: seq<ParsedJoint>)
    requires IsWalk(walk) && Members(walk) <= left
    requires HavePredecessors(left)
    ensures IsDirectedCycle(cycle) && Members(cycle) <= left
    decreases |left - Members(walk)|
  {
    assert walk[0] in Members(walk);
    var before := SomePredecessor(left, walk[0]);
    if before in walk {
      cycle := ClosedWalk(walk, before);
    } else {
      var longer := WalkBack(left, walk, before);
      cycle := PredecessorsCloseACycle(left, longer);
    }
  }

  lemma WalkBack(left: set<ParsedJoint>, walk: seq<ParsedJoint>, before: ParsedJoint)
    returns (longer: seq<ParsedJoint>)
    requires IsWalk(walk) && Members(walk) <= left
    requires before in left && before !in walk && before.childLink == walk[0].parentLink
    ensures IsWalk(longer) && Members(longer) <= left
    ensures |left - Members(longer)| < |left - Members(walk)|
  {
    longer := [before] + walk;
    WalkPrepend(before, walk);
    assert Members(longer) == {before} + Members(walk);
    var rest, rest' := left - Members(walk), left - Members(longer);
    assert rest == rest' + {before} && before !in rest';
  }

  ghost predicate HasPredecessor(left: set<ParsedJoint>, j: ParsedJoint) {
    exists k :: k in left && k.childLink == j.parentLink
  }

  ghost predicate HavePredecessors(left: set<ParsedJoint>) {
    forall j :: j in left ==> HasPredecessor(left, j)
  }

  lemma SomePredecessor(left: set<ParsedJoint>, j: ParsedJoint) returns (before: ParsedJoint)
    requires HavePredecessors(left) && j in left
    ensures before in left && before.childLink == j.parentLink
  {
    assert HasPredecessor(left, j);
    before :| before in left && before.childLink == j.parentLink;
  }

  /** A joint the walk did not use starts at a link the walk did not pass. */
  lemma UnvisitedParent(joints: seq<ParsedJoint>, root: string, path: seq<ParsedJoint>, j: ParsedJoint, i: nat)
    requires StopsAtLeaf(joints, root, path) && j in joints && j !in path && i <= |path|
    ensures j.parentLink != LinkAt(root, path, i)
  {
    OutgoingMember(joints, j.parentLink, j);
    if i < |path| {
      assert Outgoing(joints, LinkAt(root, path, i)) == [path[i]];
    }
  }

  lemma UnvisitedHasPredecessor(joints: seq<ParsedJoint>, root: string, path: seq<ParsedJoint>, j: ParsedJoint)
    requires StopsAtLeaf(joints, root, path) && j in joints && j !in path
    ensures exists k :: k in joints && k !in path && k.childLink == j.parentLink
  {
    UnvisitedParent(joints, root, path, j, 0);
    assert j.parentLink in Parents(joints) && j.parentLink !in Roots(joints);
    var k :| k in joints && k.childLink == j.parentLink;
    forall i | 0 <= i < |path| ensures path[i] != k {
      UnvisitedParent(joints, root, path, j, i + 1);
      assert LinkAt(root, path, i + 1) == path[i].childLink;
    }
  }

  /** When the walk stops at a leaf before every joint is used, the unused joints contain a
      directed cycle. */
  lemma UnvisitedContainCycle(joints: seq<ParsedJoint>, root: string, path: seq<ParsedJoint>)
    returns (cycle: seq<ParsedJoint>)
    requires StopsAtLeaf(joints, root, path) && |path| < |joints|
    ensures IsDirectedCycle(cycle) && forall j :: j in cycle ==> j in joints && j !in path
  {
    var left := set j | j in joints && j !in path;
    forall j | j in left ensures HasPredecessor(left, j) {
      UnvisitedHasPredecessor(joints, root, path, j);
      var k :| k in joints && k !in path && k.childLink == j.parentLink;
      assert k in left;
    }
    var j := SomeUnvisited(joints, root, path);
    assert Members([j]) == {j};
    cycle := PredecessorsCloseACycle(left, [j]);
    assert forall j :: j in cycle ==> j in Members(cycle);
  }

  lemma SomeUnvisited(joints: seq<ParsedJoint>, root: string, path: seq<ParsedJoint>) returns (j: ParsedJoint)
    requires FreshTrail(joints, root, path) && |path| < |joints|
    ensures j in joints && j !in path
  {
    TrailIsSubmultiset(joints, root, path);
    var rest := multiset(joints) - multiset(path);
    assert multiset(joints) == multiset(path) + rest;
    assert |multiset(joints)| == |multiset(path)| + |rest|;
    j :| j in rest;
    assert j in multiset(joints);
    forall i | 0 <= i < |path| ensures path[i] != j {
      TrailJointIsSingle(joints, root, path, i);
    }
  }

  lemma TrailJointIsSingle(joints: seq<ParsedJoint>, root: string, path: seq<ParsedJoint>, i: nat)
    requires FreshTrail(joints, root, path) && i < |path|
    ensures multiset(joints)[path[i]] == 1 == multiset(path)[path[i]]
  {
    TrailStep(joints, root, path, i);
    OutgoingContents(joints, path[i].parentLink, path[i]);
    assert multiset([path[i]])[path[i]] == 1;
    TrailIsConnected(joints, root, path);
    DistinctCount(path, path[i]);
  }

  lemma IncompleteMeansDetachedCycle(joints: seq<ParsedJoint>, visited: nat, total: nat)
    requires Outcome(joints, Failure(Incomplete(visited, total)))
    ensures exists root, path, c ::
      && StopsAtLeaf(joints, root, path) && |path| == visited
      && IsDirectedCycle(c) && forall j :: j in c ==> j in joints && j !in path
  {
    var root, path :| StopsAtLeaf(joints, root, path) && |path| == visited;
    var c := UnvisitedContainCycle(joints, root, path);
  }

  // ----- an independent description of the accepted graphs

  lemma {:induction false} CycleAdvances(joints: seq<ParsedJoint>, path: seq<ParsedJoint>, c: seq<ParsedJoint>,
                                         first: nat, n: nat)
    requires IsChainOf(joints, path)
    requires IsWalk(c) && forall j :: j in c ==> j in path
    requires first < |path| && path[first] == c[0] && n < |c|
    ensures first + n < |path| && path[first + n] == c[n]
  {
    if n != 0 {
      CycleAdvances(joints, path, c, first, n - 1);
      assert Joined(c, n - 1);
      assert c[n] in c;
      assert LinkAt(path[0].parentLink, path, first + n) == c[n].parentLink;
      ChainPosition(joints, path, first + n, c[n]);
    }
  }

  lemma NoCycleOnChain(joints: seq<ParsedJoint>, path: seq<ParsedJoint>, c: seq<ParsedJoint>)
    requires IsChainOf(joints, path) && IsDirectedCycle(c)
    ensures exists j :: j in c && j !in path
  {
    if forall j :: j in c ==> j in path {
      assert c[0] in c;
      var first :| 0 <= first < |path| && path[first] == c[0];
      CycleAdvances(joints, path, c, first, |c| - 1);
      assert LinkAt(path[0].parentLink, path, first + |c|) == c[0].parentLink;
      ChainPosition(joints, path, first + |c|, c[0]);
      ChainMembers(joints, path);
      assert false;
    }
  }

  lemma ChainIsAcyclic(joints: seq<ParsedJoint>, path: seq<ParsedJoint>)
    requires IsChainOf(joints, path)
    ensures Acyclic(joints)
  {
    ChainMembers(joints, path);
    forall c | IsDirectedCycle(c) ensures exists j :: j in c && j !in joints {
      NoCycleOnChain(joints, path, c);
      var j :| j in c && j !in path;
      assert j in c && j !in joints;
    }
  }

  lemma TwiceCounted<T(!new)>(s: seq<T>, i: nat, j: nat)
    requires i < j < |s|
    ensures s[i] == s[j] ==> multiset(s)[s[i]] >= 2
  {
    assert s == s[..j] + [s[j]] + s[j + 1..];
    assert s[..j][i] in multiset(s[..j]);
  }

  lemma ChainLinksDiffer(joints: seq<ParsedJoint>, path: seq<ParsedJoint>, a: ParsedJoint, b: ParsedJoint)
    requires IsChainOf(joints, path)
    requires a in path && b in path && a != b
    ensures a.parentLink != b.parentLink && a.childLink != b.childLink
  {
    var root := path[0].parentLink;
    var i: nat :| i < |path| && path[i] == a;
    var k: nat :| k < |path| && path[k] == b;
    assert LinkAt(root, path, i) != LinkAt(root, path, k);
    assert LinkAt(root, path, i + 1) != LinkAt(root, path, k + 1);
  }

  lemma ChainHasNoSharedLinks(joints: seq<ParsedJoint>, path: seq<ParsedJoint>)
    requires IsChainOf(joints, path)
    ensures NoBranching(joints) && NoMerging(joints)
  {
    ChainMembers(joints, path);
    forall i, j | 0 <= i < j < |joints|
      ensures joints[i].parentLink != joints[j].parentLink && joints[i].childLink != joints[j].childLink
    {
      DistinctCount(path, joints[i]);
      TwiceCounted(joints, i, j);
      ChainLinksDiffer(joints, path, joints[i], joints[j]);
    }
  }

  /** The accepted joint lists are exactly the graphs with one root in which no link has two
      outgoing or two incoming joints and no joints form a cycle. */
  lemma SucceedsIffRootedAndSimple(joints: seq<ParsedJoint>, r: WalkResult)
    requires Outcome(joints, r)
    ensures r.Success? <==>
      |Roots(joints)| == 1 && NoBranching(joints) && NoMerging(joints) && Acyclic(joints)
  {
    SucceedsIffChain(joints, r);
    match r
    case Success(path) =>
      ChainIsAcyclic(joints, path);
      ChainHasNoSharedLinks(joints, path);
    case Failure(NotOneRoot(_)) =>
    case Failure(Cycle(link)) =>
      CycleMeansTwoIncoming(joints, link);
    case Failure(Branching(link, n)) =>
      BranchingMeansTwoOutgoing(joints, link, n);
    case Failure(Incomplete(visited, total)) =>
      IncompleteMeansDetachedCycle(joints, visited, total);
  }
}
