/**
 * `setMenuItemProps` and the traversal it runs: the clone of a menu entry gets
 * the marker id, its nodes' ids are rewritten by the `walk` callback, and the
 * first non-image node the walk meets receives the label.
 */
module MenuItem {
  import opened Wrappers
  import opened Dom

  const MarkerId: string := "copy-msg-id"
  const IdSuffix: string := "-copy-msg-id"
  const LabelText: string := "Copy Message ID"
  const AriaLabel: string := "aria-label"
  const ImageTag: string := "IMG"

  /** The callback's id rule: `if (!element.id) element.id += '-copy-msg-id'`.
      Only an EMPTY id is changed; a non-empty id is left as it is. */
  function CallbackId(id: string): string
  {
    if id == "" then id + IdSuffix else id
  }

  /** The callback picks its label target among nodes that are not images. */
  predicate IsLabelCandidate(n: Node)
  {
    n.tag != ImageTag
  }

  /** The subtree after the callback has run on each of its nodes. */
  function Renamed(n: Node): Node
    decreases n
  {
    Node(n.tag, CallbackId(n.id), n.text, n.attrs,
         seq(|n.children|, i requires 0 <= i < |n.children| => Renamed(n.children[i])))
  }

  /** Renaming keeps every position and acts on each node by itself. */
  lemma {:induction false} RenamedAt(n: Node, p: Path)
    ensures ValidPath(Renamed(n), p) <==> ValidPath(n, p)
    ensures ValidPath(n, p) ==> At(Renamed(n), p) == Renamed(At(n, p))
    decreases p
  {
    if p != [] && p[0] < |n.children| {
      RenamedAt(n.children[p[0]], p[1..]);
    }
  }

  /** `textContent = s`: the node's character data becomes `s` and its
      children are removed. */
  function SetTextContent(t: Node, p: Path, s: string): Node
    requires ValidPath(t, p)
    decreases p
  {
    if p == [] then t.(text := s, children := [])
    else t.(children := t.children[p[0] := SetTextContent(t.children[p[0]], p[1..], s)])
  }

  /** Setting the text of the node at `p` removes exactly the nodes below `p`,
      changes the text of the node at `p` and nothing else in any node. */
  lemma {:induction false} SetTextContentAt(t: Node, p: Path, s: string, q: Path)
    requires ValidPath(t, p)
    ensures ValidPath(SetTextContent(t, p, s), q) <==> ValidPath(t, q) && !IsProperPrefix(p, q)
    ensures ValidPath(SetTextContent(t, p, s), q) ==>
      Own(At(SetTextContent(t, p, s), q)) == if q == p then Own(At(t, q)).(text := s) else Own(At(t, q))
    ensures ValidPath(SetTextContent(t, p, s), p) && At(SetTextContent(t, p, s), p).children == []
    decreases p
  {
    var t' := SetTextContent(t, p, s);
    if p == [] {
      if q != [] {
        assert IsProperPrefix(p, q);
      }
    } else {
      var a := p[0];
      SetTextContentAt(t.children[a], p[1..], s, p[1..]);
      if q == [] {
      } else if q[0] == a {
        SetTextContentAt(t.children[a], p[1..], s, q[1..]);
        assert IsProperPrefix(p, q) <==> IsProperPrefix(p[1..], q[1..]) by {
          if IsProperPrefix(p[1..], q[1..]) {
            PathTail(p, a);
            PathTail(q, a);
            assert q[..|p|] == [a] + q[1..][..|p[1..]|];
          }
          if IsProperPrefix(p, q) {
            assert q[1..][..|p[1..]|] == q[..|p|][1..];
          }
        }
        assert q == p <==> q[1..] == p[1..] by {
          if q[1..] == p[1..] {
            PathTail(p, a);
            PathTail(q, a);
          }
        }
      } else {
        assert !IsProperPrefix(p, q) && q != p;
        if q[0] < |t.children| {
          assert t'.children[q[0]] == t.children[q[0]];
        }
      }
    }
  }

  /** `walk(node, callback)` as `setMenuItemProps` runs it: the loop over the
      children, each visited recursively, then the callback on the node
      itself, which rewrites the id and records the first non-image node in
      `lastElement`. `path` is the position of `node` in the clone. */
  method Walk(node: Node, path: Path, lastElement: Option<Path>) returns (walked: Node, last: Option<Path>)
    ensures walked == Renamed(node)
    ensures last == if lastElement.Some? then lastElement
                    else PrefixOpt(path, FirstInPostOrder(node, IsLabelCandidate))
    decreases node
  {
    var children: seq<Node> := [];
    last := lastElement;
    for i := 0 to |node.children|
      invariant children == seq(i, j requires 0 <= j < i => Renamed(node.children[j]))
      invariant lastElement.Some? ==> last == lastElement
      invariant lastElement.None? && last.None? ==>
        FirstInPostOrderFrom(node, IsLabelCandidate, 0) == FirstInPostOrderFrom(node, IsLabelCandidate, i)
      invariant lastElement.None? && last.Some? ==>
        last == PrefixOpt(path, FirstInPostOrderFrom(node, IsLabelCandidate, 0))
    {
      var child, l := Walk(node.children[i], path + [i], last);
      if last.None? && l.Some? {
        assert l.value == path + [i] + FirstInPostOrder(node.children[i], IsLabelCandidate).value;
        assert path + [i] + FirstInPostOrder(node.children[i], IsLabelCandidate).value
            == path + ([i] + FirstInPostOrder(node.children[i], IsLabelCandidate).value);
      }
      children := children + [child];
      last := l;
    }
    var id := node.id;
    if id == "" {
      id := id + IdSuffix;
    }
    if last.None? && node.tag != ImageTag {
      assert path + [] == path;
      last := Some(path);
    }
    walked := Node(node.tag, id, node.text, node.attrs, children);
  }

  /** What `setMenuItemProps` cannot finish: `lastElement` is still null at
      the `textContent` assignment and the call throws. */
  datatype PropsError = LabelTargetMissing

  /** The clone after `setMenuItemProps`, or the error it throws. */
  function MenuItemProps(menuItem: Node): Result<Node, PropsError>
  {
    var item := menuItem.(id := MarkerId);
    match FirstInPostOrder(menuItem, IsLabelCandidate)
    case None => Failure(LabelTargetMissing)
    case Some(target) =>
      FirstInPostOrderSpec(menuItem, IsLabelCandidate);
      RenamedAt(item, target);
      var labelled := SetTextContent(Renamed(item), target, LabelText);
      Success(labelled.(attrs := labelled.attrs[AriaLabel := LabelText]))
  }

  /** `setMenuItemProps(menuItem)` on a deep clone. */
  method SetMenuItemProps(menuItem: Node) returns (r: Result<Node, PropsError>)
    ensures r == MenuItemProps(menuItem)
  {
    var item := menuItem.(id := MarkerId);
    var walked, lastElement := Walk(item, [], None);
    FirstInPostOrderSameChildren(item, menuItem, IsLabelCandidate);
    if lastElement.None? {
      return Failure(LabelTargetMissing);
    }
    assert [] + FirstInPostOrder(item, IsLabelCandidate).value == FirstInPostOrder(item, IsLabelCandidate).value;
    assert lastElement == FirstInPostOrder(menuItem, IsLabelCandidate);
    FirstInPostOrderSpec(item, IsLabelCandidate);
    RenamedAt(item, lastElement.value);
    walked := SetTextContent(walked, lastElement.value, LabelText);
    walked := walked.(attrs := walked.attrs[AriaLabel := LabelText]);
    return Success(walked);
  }

  /** What `setMenuItemProps` guarantees of the clone. It fails exactly when
      every node of the entry is an image. Otherwise, with `target` the first
      non-image node in walk order: the root carries the marker id and the
      aria-label and keeps its other attributes, and its text unless it is
      the target; every other node keeps its tag and attributes, and its id if
      that was non-empty, while an empty id becomes `-copy-msg-id`; the target
      alone gets the label as its text and loses its subtree, which held
      images only; no node is added. */
  lemma MenuItemPropsSpec(menuItem: Node)
    ensures MenuItemProps(menuItem).Failure? <==>
      forall p :: ValidPath(menuItem, p) ==> At(menuItem, p).tag == ImageTag
    ensures MenuItemProps(menuItem).Success? ==>
      var r := MenuItemProps(menuItem).value;
      var target := FirstInPostOrder(menuItem, IsLabelCandidate).value;
      && r.id == MarkerId && r.tag == menuItem.tag
      && AriaLabel in r.attrs && r.attrs[AriaLabel] == LabelText
      && r.attrs == menuItem.attrs[AriaLabel := LabelText]
      && (target != [] ==> r.text == menuItem.text)
      && ValidPath(menuItem, target) && At(menuItem, target).tag != ImageTag
      && ValidPath(r, target) && At(r, target).text == LabelText && At(r, target).children == []
      && (forall p :: ValidPath(r, p) <==> ValidPath(menuItem, p) && !IsProperPrefix(target, p))
      && (forall p :: ValidPath(menuItem, p) && IsProperPrefix(target, p) ==> At(menuItem, p).tag == ImageTag)
      && (forall p :: p != [] && ValidPath(r, p) ==>
            && At(r, p).tag == At(menuItem, p).tag
            && At(r, p).attrs == At(menuItem, p).attrs
            && (At(menuItem, p).id == "" ==> At(r, p).id == IdSuffix)
            && (At(menuItem, p).id != "" ==> At(r, p).id == At(menuItem, p).id)
            && (p != target ==> At(r, p).text == At(menuItem, p).text))
  {
    var item := menuItem.(id := MarkerId);
    assert forall p :: ValidPath(item, p) <==> ValidPath(menuItem, p);
    assert forall p :: p != [] && ValidPath(item, p) ==> At(item, p) == At(menuItem, p);
    assert Own(At(item, [])) == Own(At(menuItem, [])).(id := MarkerId);
    FirstInPostOrderSpec(menuItem, IsLabelCandidate);
    match FirstInPostOrder(menuItem, IsLabelCandidate)
    case None =>
    case Some(target) =>
      var renamed := Renamed(item);
      RenamedAt(item, target);
      var labelled := SetTextContent(renamed, target, LabelText);
      var r := labelled.(attrs := labelled.attrs[AriaLabel := LabelText]);
      assert r == MenuItemProps(menuItem).value;
      SetTextContentAt(renamed, target, LabelText, target);
      assert forall p :: ValidPath(r, p) <==> ValidPath(labelled, p);
      assert forall p :: p != [] && ValidPath(r, p) ==> At(r, p) == At(labelled, p);
      forall p
        ensures ValidPath(r, p) <==> ValidPath(menuItem, p) && !IsProperPrefix(target, p)
      {
        SetTextContentAt(renamed, target, LabelText, p);
        RenamedAt(item, p);
      }
      forall p | ValidPath(menuItem, p) && IsProperPrefix(target, p)
        ensures At(menuItem, p).tag == ImageTag
      {
        assert PostBefore(p, target);
      }
      forall p | p != [] && ValidPath(r, p)
        ensures && At(r, p).tag == At(menuItem, p).tag
                && At(r, p).attrs == At(menuItem, p).attrs
                && (At(menuItem, p).id == "" ==> At(r, p).id == IdSuffix)
                && (At(menuItem, p).id != "" ==> At(r, p).id == At(menuItem, p).id)
                && (p != target ==> At(r, p).text == At(menuItem, p).text)
      {
        SetTextContentAt(renamed, target, LabelText, p);
        RenamedAt(item, p);
        assert Own(At(labelled, p)).tag == At(r, p).tag;
      }
      if target == [] {
        assert At(r, target) == r;
      } else {
        assert At(r, target) == At(labelled, target);
      }
      assert r.id == labelled.id == Own(At(labelled, [])).id;
      SetTextContentAt(renamed, target, LabelText, []);
  }
}
