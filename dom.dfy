/**
 * The part of the DOM the content script touches: an element tree, positions
 * in it, the order in which `walk` visits it and the document-order search
 * behind `querySelector`.
 */
module Dom {
  import opened Wrappers

  /** An element: tag name, id, its own character data, its other attributes
      and its child nodes in document order. */
  datatype Node = Node(tag: string, id: string, text: string, attrs: map<string, string>, children: seq<Node>)

  /** The position of a node below a root: the child index taken at each level. */
  type Path = seq<nat>

  predicate ValidPath(n: Node, p: Path)
    decreases p
  {
    p == [] || (p[0] < |n.children| && ValidPath(n.children[p[0]], p[1..]))
  }

  function At(n: Node, p: Path): Node
    requires ValidPath(n, p)
    decreases p
  {
    if p == [] then n else At(n.children[p[0]], p[1..])
  }

  /** The node's own fields, without its subtree. */
  function Own(n: Node): Node
  {
    n.(children := [])
  }

  /** `a` is the path of a strict ancestor of the node at `b`. */
  predicate IsProperPrefix(a: Path, b: Path)
  {
    |a| < |b| && b[..|a|] == a
  }

  /** At the first step where they differ, `q` takes an earlier sibling than `p`. */
  predicate Diverges(q: Path, p: Path)
    decreases q
  {
    |q| > 0 && |p| > 0 && (q[0] < p[0] || (q[0] == p[0] && Diverges(q[1..], p[1..])))
  }

  /** `q` comes before `p` when children are visited before their parent. */
  predicate PostBefore(q: Path, p: Path)
  {
    IsProperPrefix(p, q) || Diverges(q, p)
  }

  /** `q` comes before `p` in document order (a parent before its children). */
  predicate PreBefore(q: Path, p: Path)
  {
    IsProperPrefix(q, p) || Diverges(q, p)
  }

  function Prefixed(i: nat, ps: seq<Path>): seq<Path>
  {
    seq(|ps|, j requires 0 <= j < |ps| => [i] + ps[j])
  }

  function PrefixOpt(path: Path, o: Option<Path>): Option<Path>
  {
    match o
    case None => None
    case Some(p) => Some(path + p)
  }

  /** The nodes `walk(n, func)` hands to `func`, in call order: the subtree of
      every child, left to right, then `n` itself. */
  function PostOrder(n: Node): seq<Path>
    decreases n, 1
  {
    ChildrenPostOrder(n, |n.children|) + [[]]
  }

  /** The visits made by the loop of `walk` over the first `k` children. */
  function ChildrenPostOrder(n: Node, k: nat): seq<Path>
    requires k <= |n.children|
    decreases n, 0, k
  {
    if k == 0 then [] else ChildrenPostOrder(n, k - 1) + Prefixed(k - 1, PostOrder(n.children[k - 1]))
  }

  lemma PathTail(p: Path, i: nat)
    requires |p| > 0 && p[0] == i
    ensures p == [i] + p[1..]
  {
  }

  lemma {:induction false} PostBeforeIrreflexive(p: Path)
    ensures !PostBefore(p, p)
    decreases p
  {
    if |p| > 0 {
      PostBeforeIrreflexive(p[1..]);
    }
  }

  /** Putting the same index in front of two paths keeps their post-order. */
  lemma {:induction false} PostBeforeCons(i: nat, q: Path, p: Path)
    requires PostBefore(q, p)
    ensures PostBefore([i] + q, [i] + p)
  {
    assert ([i] + q)[1..] == q && ([i] + p)[1..] == p;
    if IsProperPrefix(p, q) {
      assert ([i] + q)[..|[i] + p|] == [i] + q[..|p|];
    }
  }

  lemma {:induction false} ChildrenPostOrderShape(n: Node, k: nat)
    requires k <= |n.children|
    ensures forall j :: 0 <= j < |ChildrenPostOrder(n, k)| ==>
      |ChildrenPostOrder(n, k)[j]| > 0 && ChildrenPostOrder(n, k)[j][0] < k
    decreases k
  {
    if k > 0 {
      ChildrenPostOrderShape(n, k - 1);
    }
  }

  /** A path is visited by `walk` exactly when it names a node of the tree. */
  lemma {:induction false} PostOrderCovers(n: Node, p: Path)
    ensures p in PostOrder(n) <==> ValidPath(n, p)
    decreases p
  {
    if p != [] {
      ChildrenPostOrderShape(n, |n.children|);
      if p[0] < |n.children| {
        PostOrderCovers(n.children[p[0]], p[1..]);
      }
      ChildrenPostOrderMember(n, |n.children|, p);
    }
  }

  lemma {:induction false} ChildrenPostOrderMember(n: Node, k: nat, p: Path)
    requires k <= |n.children|
    requires p != []
    ensures p in ChildrenPostOrder(n, k) <==> p[0] < k && p[1..] in PostOrder(n.children[p[0]])
    decreases k
  {
    if k > 0 {
      ChildrenPostOrderMember(n, k - 1, p);
      var tail := Prefixed(k - 1, PostOrder(n.children[k - 1]));
      if p[0] == k - 1 && p[1..] in PostOrder(n.children[k - 1]) {
        var j :| 0 <= j < |PostOrder(n.children[k - 1])| && PostOrder(n.children[k - 1])[j] == p[1..];
        PathTail(p, k - 1);
        assert tail[j] == p;
      }
      if p in tail {
        var j :| 0 <= j < |tail| && tail[j] == p;
        assert p[1..] == PostOrder(n.children[k - 1])[j];
      }
    }
  }

  lemma {:induction false} ChildrenPostOrderOrdered(n: Node, k: nat)
    requires k <= |n.children|
    ensures forall i, j :: 0 <= i < j < |ChildrenPostOrder(n, k)| ==>
      PostBefore(ChildrenPostOrder(n, k)[i], ChildrenPostOrder(n, k)[j])
    decreases n, 0, k
  {
    if k > 0 {
      var front := ChildrenPostOrder(n, k - 1);
      var sub := PostOrder(n.children[k - 1]);
      var tail := Prefixed(k - 1, sub);
      var all := ChildrenPostOrder(n, k);
      assert all == front + tail;
      ChildrenPostOrderOrdered(n, k - 1);
      ChildrenPostOrderShape(n, k - 1);
      PostOrderOrdered(n.children[k - 1]);
      forall i, j | 0 <= i < j < |all|
        ensures PostBefore(all[i], all[j])
      {
        if j < |front| {
          assert all[i] == front[i] && all[j] == front[j];
        } else if i < |front| {
          assert all[i] == front[i] && all[j] == tail[j - |front|];
          assert Diverges(all[i], all[j]);
        } else {
          assert all[i] == [k - 1] + sub[i - |front|] && all[j] == [k - 1] + sub[j - |front|];
          PostBeforeCons(k - 1, sub[i - |front|], sub[j - |front|]);
        }
      }
    }
  }

  /** Earlier visits of `walk` come before later ones in post-order. */
  lemma {:induction false} PostOrderOrdered(n: Node)
    ensures forall i, j :: 0 <= i < j < |PostOrder(n)| ==> PostBefore(PostOrder(n)[i], PostOrder(n)[j])
    decreases n, 1
  {
    var front := ChildrenPostOrder(n, |n.children|);
    ChildrenPostOrderOrdered(n, |n.children|);
    ChildrenPostOrderShape(n, |n.children|);
    forall i, j | 0 <= i < j < |PostOrder(n)|
      ensures PostBefore(PostOrder(n)[i], PostOrder(n)[j])
    {
      if j == |front| {
        assert PostOrder(n)[j] == [];
        assert IsProperPrefix([], PostOrder(n)[i]);
      } else {
        assert PostOrder(n)[i] == front[i] && PostOrder(n)[j] == front[j];
      }
    }
  }

  /** `walk` applies its callback to every node of the tree exactly once,
      children's subtrees left to right before the node itself. */
  lemma WalkVisitsEveryNodeOnce(n: Node)
    ensures forall p :: p in PostOrder(n) <==> ValidPath(n, p)
    ensures forall i, j :: 0 <= i < j < |PostOrder(n)| ==>
      PostOrder(n)[i] != PostOrder(n)[j] && PostBefore(PostOrder(n)[i], PostOrder(n)[j])
  {
    forall p
      ensures p in PostOrder(n) <==> ValidPath(n, p)
    {
      PostOrderCovers(n, p);
    }
    PostOrderOrdered(n);
    forall i, j | 0 <= i < j < |PostOrder(n)|
      ensures PostOrder(n)[i] != PostOrder(n)[j]
    {
      PostBeforeIrreflexive(PostOrder(n)[i]);
    }
  }

  /** `querySelector` on `n` with a selector `f`: the first element below `n`
      in document order that satisfies `f`. */
  function FirstMatch(n: Node, f: Node -> bool): Option<Path>
    decreases n, 1
  {
    FirstMatchFrom(n, f, 0)
  }

  function FirstMatchFrom(n: Node, f: Node -> bool, i: nat): Option<Path>
    requires i <= |n.children|
    decreases n, 0, |n.children| - i
  {
    if i == |n.children| then None
    else if f(n.children[i]) then Some([i])
    else match FirstMatch(n.children[i], f)
      case Some(p) => Some([i] + p)
      case None => FirstMatchFrom(n, f, i + 1)
  }

  lemma {:induction false} FirstMatchFromSpec(n: Node, f: Node -> bool, i: nat)
    requires i <= |n.children|
    ensures FirstMatchFrom(n, f, i).Some? ==>
      var p := FirstMatchFrom(n, f, i).value;
      && p != [] && p[0] >= i && ValidPath(n, p) && f(At(n, p))
      && forall q :: q != [] && q[0] >= i && ValidPath(n, q) && PreBefore(q, p) ==> !f(At(n, q))
    ensures FirstMatchFrom(n, f, i).None? ==>
      forall q :: q != [] && q[0] >= i && ValidPath(n, q) ==> !f(At(n, q))
    decreases n, 0, |n.children| - i
  {
    if i < |n.children| {
      var c := n.children[i];
      if f(c) {
        var p: Path := [i];
        assert At(n, p) == At(c, []);
        forall q | q != [] && q[0] >= i && ValidPath(n, q)
          ensures !PreBefore(q, p)
        {
          assert !Diverges(q[1..], p[1..]);
        }
      } else {
        FirstMatchSpec(c, f);
        FirstMatchFromSpec(n, f, i + 1);
        match FirstMatch(c, f)
        case Some(p') =>
          var p := [i] + p';
          assert p[1..] == p';
          forall q | q != [] && q[0] >= i && ValidPath(n, q) && PreBefore(q, p)
            ensures !f(At(n, q))
          {
            if q[0] == i && q[1..] != [] {
              PreBeforeTail(q, p);
            }
          }
        case None =>
      }
    }
  }

  lemma {:induction false} PreBeforeTail(q: Path, p: Path)
    requires |q| > 1 && |p| > 0 && q[0] == p[0] && PreBefore(q, p)
    ensures PreBefore(q[1..], p[1..])
  {
    if IsProperPrefix(q, p) {
      assert p[1..][..|q[1..]|] == p[..|q|][1..];
    }
  }

  lemma {:induction false} PostBeforeTail(q: Path, p: Path)
    requires |q| > 0 && |p| > 0 && q[0] == p[0] && PostBefore(q, p)
    ensures PostBefore(q[1..], p[1..])
  {
    if IsProperPrefix(p, q) {
      assert q[1..][..|p[1..]|] == q[..|p|][1..];
    }
  }

  /** The first match of `querySelector` lies below `n`, satisfies the
      selector and no element before it in document order does; when there is
      no match, no element below `n` satisfies the selector. */
  lemma {:induction false} FirstMatchSpec(n: Node, f: Node -> bool)
    ensures FirstMatch(n, f).Some? ==>
      var p := FirstMatch(n, f).value;
      && p != [] && ValidPath(n, p) && f(At(n, p))
      && forall q :: q != [] && ValidPath(n, q) && PreBefore(q, p) ==> !f(At(n, q))
    ensures FirstMatch(n, f).None? ==> forall q :: q != [] && ValidPath(n, q) ==> !f(At(n, q))
    decreases n, 1
  {
    FirstMatchFromSpec(n, f, 0);
  }

  /** The first node `walk(n, ...)` visits that satisfies `f`. */
  function FirstInPostOrder(n: Node, f: Node -> bool): Option<Path>
    decreases n, 1
  {
    match FirstInPostOrderFrom(n, f, 0)
    case Some(p) => Some(p)
    case None => if f(n) then Some([]) else None
  }

  function FirstInPostOrderFrom(n: Node, f: Node -> bool, i: nat): Option<Path>
    requires i <= |n.children|
    decreases n, 0, |n.children| - i
  {
    if i == |n.children| then None
    else match FirstInPostOrder(n.children[i], f)
      case Some(p) => Some([i] + p)
      case None => FirstInPostOrderFrom(n, f, i + 1)
  }

  lemma {:induction false} FirstInPostOrderFromSpec(n: Node, f: Node -> bool, i: nat)
    requires i <= |n.children|
    ensures FirstInPostOrderFrom(n, f, i).Some? ==>
      var p := FirstInPostOrderFrom(n, f, i).value;
      && p != [] && p[0] >= i && ValidPath(n, p) && f(At(n, p))
      && forall q :: q != [] && q[0] >= i && ValidPath(n, q) && PostBefore(q, p) ==> !f(At(n, q))
    ensures FirstInPostOrderFrom(n, f, i).None? ==>
      forall q :: q != [] && q[0] >= i && ValidPath(n, q) ==> !f(At(n, q))
    decreases n, 0, |n.children| - i
  {
    if i < |n.children| {
      var c := n.children[i];
      FirstInPostOrderSpec(c, f);
      FirstInPostOrderFromSpec(n, f, i + 1);
      forall q | q != [] && q[0] == i && ValidPath(n, q)
        ensures ValidPath(c, q[1..]) && At(n, q) == At(c, q[1..])
      {
      }
      match FirstInPostOrder(c, f)
      case Some(p') =>
        var p := [i] + p';
        assert p[1..] == p';
        forall q | q != [] && q[0] >= i && ValidPath(n, q) && PostBefore(q, p)
          ensures !f(At(n, q))
        {
          if q[0] == i {
            PostBeforeTail(q, p);
          }
        }
      case None =>
        assert FirstInPostOrderFrom(n, f, i) == FirstInPostOrderFrom(n, f, i + 1);
        forall q | q != [] && q[0] == i && ValidPath(n, q)
          ensures !f(At(n, q))
        {
          assert ValidPath(c, q[1..]) && At(n, q) == At(c, q[1..]);
          assert FirstInPostOrder(c, f).None?;
          assert forall r :: ValidPath(c, r) ==> !f(At(c, r));
          assert !f(At(c, q[1..]));
        }
    }
  }

  /** The node `FirstInPostOrder` picks satisfies `f`, and every node `walk`
      visits before it does not; when it picks none, no node satisfies `f`. */
  lemma {:induction false} FirstInPostOrderSpec(n: Node, f: Node -> bool)
    ensures FirstInPostOrder(n, f).Some? ==>
      var p := FirstInPostOrder(n, f).value;
      && ValidPath(n, p) && f(At(n, p))
      && forall q :: ValidPath(n, q) && PostBefore(q, p) ==> !f(At(n, q))
    ensures FirstInPostOrder(n, f).None? <==> forall q :: ValidPath(n, q) ==> !f(At(n, q))
    decreases n, 1
  {
    FirstInPostOrderFromSpec(n, f, 0);
    if FirstInPostOrderFrom(n, f, 0).Some? {
      var p := FirstInPostOrderFrom(n, f, 0).value;
      assert !PostBefore([], p);
    }
  }

  /** The pick depends only on the subtree below a node and on whether `f`
      holds of the node itself. */
  lemma {:induction false} FirstInPostOrderSameChildren(a: Node, b: Node, f: Node -> bool)
    requires a.children == b.children && f(a) == f(b)
    ensures FirstInPostOrder(a, f) == FirstInPostOrder(b, f)
  {
    FirstInPostOrderFromSameChildren(a, b, f, 0);
  }

  lemma {:induction false} FirstInPostOrderFromSameChildren(a: Node, b: Node, f: Node -> bool, i: nat)
    requires a.children == b.children && i <= |a.children|
    ensures FirstInPostOrderFrom(a, f, i) == FirstInPostOrderFrom(b, f, i)
    decreases |a.children| - i
  {
    if i < |a.children| {
      FirstInPostOrderFromSameChildren(a, b, f, i + 1);
    }
  }

  /** The same node, stated over the sequence of visits: it is the first
      visit of `walk` whose node satisfies `f`. */
  lemma FirstInPostOrderIsFirstVisit(n: Node, f: Node -> bool)
    requires FirstInPostOrder(n, f).Some?
    ensures exists k ::
              && 0 <= k < |PostOrder(n)| && PostOrder(n)[k] == FirstInPostOrder(n, f).value
              && forall j :: 0 <= j < k ==> ValidPath(n, PostOrder(n)[j]) && !f(At(n, PostOrder(n)[j]))
  {
    var p := FirstInPostOrder(n, f).value;
    FirstInPostOrderSpec(n, f);
    WalkVisitsEveryNodeOnce(n);
    var k :| 0 <= k < |PostOrder(n)| && PostOrder(n)[k] == p;
    assert forall j :: 0 <= j < k ==> PostBefore(PostOrder(n)[j], PostOrder(n)[k]);
  }

  /** The node at `t + q` is the node at `q` below the node at `t`. */
  lemma {:induction false} AtConcat(n: Node, t: Path, q: Path)
    requires ValidPath(n, t)
    ensures ValidPath(At(n, t), q) <==> ValidPath(n, t + q)
    ensures ValidPath(At(n, t), q) ==> At(At(n, t), q) == At(n, t + q)
    decreases t
  {
    if t == [] {
      assert t + q == q;
    } else {
      assert (t + q)[0] == t[0] && (t + q)[1..] == t[1..] + q;
      AtConcat(n.children[t[0]], t[1..], q);
    }
  }
}
