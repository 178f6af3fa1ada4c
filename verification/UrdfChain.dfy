/** Ordering the joints of a URDF from root to leaf: `walk_urdf_chain`.

    A joint is an edge from its parent link to its child link.  The walk is given the edges in
    any order and must return them as one simple path or reject them. */
module UrdfChain {
  import opened Wrappers
  import opened Sequences

  datatype Vector3 = Vector3(x: real, y: real, z: real)

  datatype ParsedJoint = ParsedJoint(
    name: string, typeStr: string, parentLink: string, childLink: string,
    xyz: Vector3, rpy: Vector3, axisOpt: Option<Vector3>)

  datatype WalkError =
    | NotOneRoot(roots: set<string>)
    | Cycle(link: string)
    | Branching(link: string, outgoing: nat)
    | Incomplete(visited: nat, total: nat)

  type WalkResult = Result<seq<ParsedJoint>, WalkError>

  // ----- the joints as a graph

  function Parents(joints: seq<ParsedJoint>): set<string> {
    set j | j in joints :: j.parentLink
  }

  function Children(joints: seq<ParsedJoint>): set<string> {
    set j | j in joints :: j.childLink
  }

  /** The links that are a parent but never a child. */
  function Roots(joints: seq<ParsedJoint>): set<string> {
    Parents(joints) - Children(joints)
  }

  /** The joints that leave `link`, in input order. */
  function Outgoing(joints: seq<ParsedJoint>, link: string): seq<ParsedJoint> {
    if joints == [] then []
    else
      var j := joints[|joints| - 1];
      Outgoing(joints[..|joints| - 1], link) + if j.parentLink == link then [j] else []
  }

  /** The link reached after `i` joints when `path` is followed from `start`. */
  function LinkAt(start: string, path: seq<ParsedJoint>, i: nat): string
    requires i <= |path|
  {
    if i == 0 then start else path[i - 1].childLink
  }

  function End(start: string, path: seq<ParsedJoint>): string {
    LinkAt(start, path, |path|)
  }

  /** The links passed before the last one. */
  function Passed(start: string, path: seq<ParsedJoint>): set<string> {
    set i | 0 <= i < |path| :: LinkAt(start, path, i)
  }

  /** `path` can be followed from `start`: every joint begins where the one before it ends. */
  ghost predicate Connected(start: string, path: seq<ParsedJoint>) {
    forall i {:trigger LinkAt(start, path, i)} :: 0 <= i < |path| ==> path[i].parentLink == LinkAt(start, path, i)
  }

  /** The first `n` links of `path` are pairwise different. */
  ghost predicate NoRepeats(start: string, path: seq<ParsedJoint>, n: nat)
    requires n <= |path| + 1
  {
    forall i, j {:trigger LinkAt(start, path, i), LinkAt(start, path, j)} :: 0 <= i < j < n ==>
      LinkAt(start, path, i) != LinkAt(start, path, j)
  }

  /** `path` uses every joint exactly once, is not empty and visits no link twice. */
  ghost predicate IsChainOf(joints: seq<ParsedJoint>, path: seq<ParsedJoint>) {
    && path != []
    && multiset(path) == multiset(joints)
    && Connected(path[0].parentLink, path)
    && NoRepeats(path[0].parentLink, path, |path| + 1)
  }

  ghost predicate FormsChain(joints: seq<ParsedJoint>) {
    exists path :: IsChainOf(joints, path)
  }

  ghost predicate Joined(c: seq<ParsedJoint>, i: nat)
    requires i + 1 < |c|
  {
    c[i].childLink == c[i + 1].parentLink
  }

  /** Each joint of `c` ends where the next one starts. */
  ghost predicate IsWalk(c: seq<ParsedJoint>) {
    c != [] && forall i: nat :: i + 1 < |c| ==> Joined(c, i)
  }

  /** A closed walk along joints. */
  ghost predicate IsDirectedCycle(c: seq<ParsedJoint>) {
    IsWalk(c) && c[|c| - 1].childLink == c[0].parentLink
  }

  ghost predicate Acyclic(joints: seq<ParsedJoint>) {
    forall c :: IsDirectedCycle(c) ==> exists j :: j in c && j !in joints
  }

  ghost predicate NoBranching(joints: seq<ParsedJoint>) {
    forall i, j :: 0 <= i < j < |joints| ==> joints[i].parentLink != joints[j].parentLink
  }

  ghost predicate NoMerging(joints: seq<ParsedJoint>) {
    forall i, j :: 0 <= i < j < |joints| ==> joints[i].childLink != joints[j].childLink
  }

  // ----- what the walk reports

  /** A path from `root` on which every joint is the only one that leaves its link. */
  ghost predicate Trail(joints: seq<ParsedJoint>, root: string, path: seq<ParsedJoint>) {
    && Roots(joints) == {root}
    && forall i {:trigger LinkAt(root, path, i)} :: 0 <= i < |path| ==>
         Outgoing(joints, LinkAt(root, path, i)) == [path[i]]
  }

  /** A trail on which no link is repeated, except possibly that it ends where it has been. */
  ghost predicate FreshTrail(joints: seq<ParsedJoint>, root: string, path: seq<ParsedJoint>) {
    Trail(joints, root, path) && NoRepeats(root, path, |path|)
  }

  ghost predicate ClosesAt(joints: seq<ParsedJoint>, root: string, path: seq<ParsedJoint>, link: string) {
    FreshTrail(joints, root, path) && link == End(root, path) && link in Passed(root, path)
  }

  ghost predicate Reaches(joints: seq<ParsedJoint>, root: string, path: seq<ParsedJoint>, link: string) {
    FreshTrail(joints, root, path) && link == End(root, path) && link !in Passed(root, path)
  }

  ghost predicate StopsAtLeaf(joints: seq<ParsedJoint>, root: string, path: seq<ParsedJoint>) {
    Reaches(joints, root, path, End(root, path)) && Outgoing(joints, End(root, path)) == []
  }

  ghost predicate Outcome(joints: seq<ParsedJoint>, r: WalkResult) {
    match r
    case Failure(NotOneRoot(roots)) =>
      roots == Roots(joints) && |roots| != 1
    case Failure(Cycle(link)) =>
      exists root, path :: ClosesAt(joints, root, path, link)
    case Failure(Branching(link, outgoing)) =>
      && outgoing == |Outgoing(joints, link)| > 1
      && exists root, path :: Reaches(joints, root, path, link)
    case Failure(Incomplete(visited, total)) =>
      && visited < total == |joints|
      && exists root, path :: StopsAtLeaf(joints, root, path) && |path| == visited
    case Success(path) =>
      && |path| == |joints|
      && exists root :: StopsAtLeaf(joints, root, path)
  }

  // ----- facts about Outgoing

  lemma {:induction false} OutgoingContents(joints: seq<ParsedJoint>, link: string, j: ParsedJoint)
    ensures multiset(Outgoing(joints, link))[j] == if j.parentLink == link then multiset(joints)[j] else 0
  {
    if joints != [] {
      var n := |joints| - 1;
      assert joints == joints[..n] + [joints[n]];
      OutgoingContents(joints[..n], link, j);
    }
  }

  lemma OutgoingMember(joints: seq<ParsedJoint>, link: string, j: ParsedJoint)
    ensures j in Outgoing(joints, link) <==> j in joints && j.parentLink == link
  {
    OutgoingContents(joints, link, j);
    assert j in Outgoing(joints, link) <==> j in multiset(Outgoing(joints, link));
    assert j in joints <==> j in multiset(joints);
  }

  lemma OutgoingEmpty(joints: seq<ParsedJoint>, link: string)
    ensures Outgoing(joints, link) == [] <==> link !in Parents(joints)
  {
    if link in Parents(joints) {
      var j :| j in joints && j.parentLink == link;
      OutgoingMember(joints, link, j);
    }
    if Outgoing(joints, link) != [] {
      OutgoingMember(joints, link, Outgoing(joints, link)[0]);
    }
  }

  lemma {:induction false} OutgoingTwo(joints: seq<ParsedJoint>, link: string)
    requires |Outgoing(joints, link)| > 1
    ensures exists i, j :: 0 <= i < j < |joints| && joints[i].parentLink == joints[j].parentLink == link
  {
    var n := |joints| - 1;
    if joints[n].parentLink == link {
      var before := Outgoing(joints[..n], link);
      OutgoingMember(joints[..n], link, before[0]);
      var i :| 0 <= i < n && joints[i] == before[0];
      assert joints[i].parentLink == joints[n].parentLink == link;
    } else {
      OutgoingTwo(joints[..n], link);
      var i, j :| 0 <= i < j < n && joints[..n][i].parentLink == joints[..n][j].parentLink == link;
      assert joints[i].parentLink == joints[j].parentLink == link;
    }
  }

  lemma OutgoingOfPermutation(joints: seq<ParsedJoint>, others: seq<ParsedJoint>, link: string)
    requires multiset(joints) == multiset(others)
    ensures multiset(Outgoing(joints, link)) == multiset(Outgoing(others, link))
    ensures |Outgoing(joints, link)| == |Outgoing(others, link)|
  {
    forall j ensures multiset(Outgoing(joints, link))[j] == multiset(Outgoing(others, link))[j] {
      OutgoingContents(joints, link, j);
      OutgoingContents(others, link, j);
    }
    assert multiset(Outgoing(joints, link)) == multiset(Outgoing(others, link));
    assert |multiset(Outgoing(joints, link))| == |Outgoing(joints, link)|;
    assert |multiset(Outgoing(others, link))| == |Outgoing(others, link)|;
  }

  lemma SingletonOfPermutation(joints: seq<ParsedJoint>, others: seq<ParsedJoint>, link: string, j: ParsedJoint)
    requires multiset(joints) == multiset(others)
    requires Outgoing(joints, link) == [j]
    ensures Outgoing(others, link) == [j]
  {
    OutgoingOfPermutation(joints, others, link);
    var o := Outgoing(others, link);
    assert o[0] in multiset(o);
    assert o[0] in multiset{j};
  }

  lemma MembersOfPermutation(joints: seq<ParsedJoint>, others: seq<ParsedJoint>)
    requires multiset(joints) == multiset(others)
    ensures forall j :: j in joints <==> j in others
    ensures |joints| == |others|
    ensures Roots(joints) == Roots(others)
  {
    forall j ensures j in joints <==> j in others {
      assert j in joints <==> j in multiset(joints);
      assert j in others <==> j in multiset(others);
    }
    assert |multiset(joints)| == |joints| && |multiset(others)| == |others|;
    assert Parents(joints) == Parents(others);
    assert Children(joints) == Children(others);
  }

  // ----- following a trail one joint further

  lemma LinksExtend(root: string, path: seq<ParsedJoint>, j: ParsedJoint)
    ensures forall i {:trigger LinkAt(root, path + [j], i)} :: 0 <= i <= |path| ==>
      LinkAt(root, path + [j], i) == LinkAt(root, path, i)
    ensures End(root, path + [j]) == j.childLink
    ensures Passed(root, path + [j]) == Passed(root, path) + {End(root, path)}
  {
    var longer := path + [j];
    forall i | 0 <= i <= |path| ensures LinkAt(root, longer, i) == LinkAt(root, path, i) {}
    forall l | l in Passed(root, path) + {End(root, path)} ensures l in Passed(root, longer) {
      var i :| 0 <= i <= |path| && LinkAt(root, path, i) == l;
      assert LinkAt(root, longer, i) == l;
    }
  }

  lemma TrailExtend(joints: seq<ParsedJoint>, root: string, path: seq<ParsedJoint>, j: ParsedJoint)
    requires Reaches(joints, root, path, End(root, path))
    requires Outgoing(joints, End(root, path)) == [j]
    ensures FreshTrail(joints, root, path + [j])
  {
    LinksExtend(root, path, j);
  }

  /** Every joint of a trail is an input joint and starts where the one before it ends. */
  lemma TrailStep(joints: seq<ParsedJoint>, root: string, path: seq<ParsedJoint>, i: nat)
    requires Trail(joints, root, path) && i < |path|
    ensures path[i].parentLink == LinkAt(root, path, i) && path[i] in joints
  {
    OutgoingMember(joints, LinkAt(root, path, i), path[i]);
  }

  /** A trail is connected and no joint occurs on it twice. */
  lemma TrailIsConnected(joints: seq<ParsedJoint>, root: string, path: seq<ParsedJoint>)
    requires FreshTrail(joints, root, path)
    ensures Connected(root, path)
    ensures forall j :: j in path ==> j in joints
    ensures Distinct(path)
  {
    forall i | 0 <= i < |path| ensures path[i].parentLink == LinkAt(root, path, i) && path[i] in joints {
      TrailStep(joints, root, path, i);
    }
    forall i, j | 0 <= i < j < |path| ensures path[i] != path[j] {
      assert LinkAt(root, path, i) != LinkAt(root, path, j);
    }
  }

  lemma TrailIsSubmultiset(joints: seq<ParsedJoint>, root: string, path: seq<ParsedJoint>)
    requires FreshTrail(joints, root, path)
    ensures multiset(path) <= multiset(joints) && |path| <= |joints|
  {
    TrailIsConnected(joints, root, path);
    DistinctIsSubmultiset(path, joints);
  }

  // ----- the walk itself

  /** The first loop: the joints leaving each link, and the links used as parents and children. */
  method IndexJoints(joints: seq<ParsedJoint>)
    returns (byParent: map<string, seq<ParsedJoint>>, parents: set<string>, children: set<string>)
    ensures parents == Parents(joints) && children == Children(joints)
    ensures forall l :: l in byParent <==> Outgoing(joints, l) != []
    ensures forall l :: l in byParent ==> byParent[l] == Outgoing(joints, l)
  {
    byParent, parents, children := map[], {}, {};
    for i := 0 to |joints|
      invariant parents == Parents(joints[..i]) && children == Children(joints[..i])
      invariant forall l :: l in byParent <==> Outgoing(joints[..i], l) != []
      invariant forall l :: l in byParent ==> byParent[l] == Outgoing(joints[..i], l)
    {
      var j := joints[i];
      assert joints[..i + 1][..i] == joints[..i];
      var leaving := if j.parentLink in byParent then byParent[j.parentLink] else [];
      byParent := byParent[j.parentLink := leaving + [j]];
      parents := parents + {j.parentLink};
      children := children + {j.childLink};
    }
    assert joints[..|joints|] == joints;
  }

  /** The second loop: the parents that are no child, each listed once. */
  method FindRoots(parents: set<string>, children: set<string>) returns (roots: seq<string>)
    ensures forall l :: l in roots <==> l in parents - children
    ensures |roots| == |parents - children|
  {
    roots := [];
    var unseen := parents;
    while unseen != {}
      invariant unseen <= parents && Distinct(roots)
      invariant forall l :: l in roots <==> l in parents && l !in unseen && l !in children
      decreases unseen
    {
      var p :| p in unseen;
      unseen := unseen - {p};
      if p !in children {
        roots := roots + [p];
      }
    }
    assert Members(roots) == parents - children;
    DistinctSize(roots);
  }

  /** Orders the joints from root to leaf, or reports why they are not one serial chain. */
  method WalkUrdfChain(joints: seq<ParsedJoint>) returns (r: WalkResult)
    ensures Outcome(joints, r)
  {
    var byParent, parents, children := IndexJoints(joints);
    var roots := FindRoots(parents, children);
    if |roots| != 1 {
      var listed := Members(roots);
      assert listed == Roots(joints);
      return Failure(NotOneRoot(listed));
    }
    SingleRoot(Roots(joints), roots[0]);
    r := FollowChain(joints, byParent, roots[0]);
  }

  lemma SingleRoot(s: set<string>, x: string)
    requires |s| == 1 && x in s
    ensures s == {x}
  {
    assert |s - {x}| == 0;
  }

  /** The `while (true)` loop and the final count. */
  method FollowChain(joints: seq<ParsedJoint>, byParent: map<string, seq<ParsedJoint>>, root: string)
    returns (r: WalkResult)
    requires Roots(joints) == {root}
    requires forall l :: l in byParent <==> Outgoing(joints, l) != []
    requires forall l :: l in byParent ==> byParent[l] == Outgoing(joints, l)
    ensures Outcome(joints, r)
  {
    var ordered: seq<ParsedJoint>, visited: set<string>, current := [], {}, root;
    ghost var allLinks := Parents(joints) + Children(joints);
    assert root in Roots(joints);
    while true
      invariant Walked(joints, root, ordered, visited, current)
      invariant current in allLinks && visited <= allLinks
      decreases |allLinks - visited|
    {
      if current in visited {
        assert ClosesAt(joints, root, ordered, current);
        return Failure(Cycle(current));
      }
      assert Reaches(joints, root, ordered, current);
      Progress(allLinks, visited, current);
      ghost var before := visited;
      visited := visited + {current};
      if current !in byParent || byParent[current] == [] {
        assert StopsAtLeaf(joints, root, ordered);
        break;
      }
      if |byParent[current]| > 1 {
        return Failure(Branching(current, |byParent[current]|));
      }
      var j := byParent[current][0];
      WalkedStep(joints, root, ordered, before, j);
      ordered := ordered + [j];
      current := j.childLink;
    }
    TrailIsSubmultiset(joints, root, ordered);
    if |ordered| != |joints| {
      return Failure(Incomplete(|ordered|, |joints|));
    }
    return Success(ordered);
  }

  /** What the loop keeps: `ordered` is a trail to `current`, and `visited` holds its links. */
  ghost predicate Walked(joints: seq<ParsedJoint>, root: string, ordered: seq<ParsedJoint>,
                         visited: set<string>, current: string)
  {
    && FreshTrail(joints, root, ordered)
    && current == End(root, ordered)
    && visited == Passed(root, ordered)
  }

  lemma WalkedStep(joints: seq<ParsedJoint>, root: string, ordered: seq<ParsedJoint>,
                   visited: set<string>, j: ParsedJoint)
    requires Walked(joints, root, ordered, visited, End(root, ordered))
    requires End(root, ordered) !in visited
    requires Outgoing(joints, End(root, ordered)) == [j]
    ensures Walked(joints, root, ordered + [j], visited + {End(root, ordered)}, j.childLink)
    ensures j in joints
  {
    TrailExtend(joints, root, ordered, j);
    LinksExtend(root, ordered, j);
    OutgoingMember(joints, End(root, ordered), j);
  }

  lemma Progress(all: set<string>, visited: set<string>, link: string)
    requires link in all - visited
    ensures |all - (visited + {link})| < |all - visited|
  {
    assert all - visited == (all - (visited + {link})) + {link};
  }
}
