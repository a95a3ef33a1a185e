/**
 * `InjectCopyMsgIdBtn` and `btnInjectedAlready`: append a relabelled clone of
 * the first visible entry to the open message menu, unless the menu already
 * holds the marker.
 */
module Injector {
  import opened Wrappers
  import opened Dom
  import opened MenuItem

  const AriaHidden: string := "aria-hidden"

  /** Matches the selector `#copy-msg-id`. */
  predicate IsMarked(n: Node)
  {
    n.id == MarkerId
  }

  /** Matches the selector `[aria-hidden=false]`. */
  predicate IsVisibleEntry(n: Node)
  {
    AriaHidden in n.attrs && n.attrs[AriaHidden] == "false"
  }

  /** `btnInjectedAlready(menu)`: some element below the menu carries the marker id. */
  function BtnInjectedAlready(menu: Node): (r: bool)
    ensures r <==> exists p :: p != [] && ValidPath(menu, p) && At(menu, p).id == MarkerId
  {
    FirstMatchSpec(menu, IsMarked);
    FirstMatch(menu, IsMarked).Some?
  }

  /** How a call of `InjectCopyMsgIdBtn` ends. */
  datatype Outcome =
    | MenuAbsent     // no open menu: early return
    | MarkerPresent  // the menu already holds the injected entry: early return
    | TemplateAbsent // no `[aria-hidden=false]` entry to clone: early return
    | Threw          // `setMenuItemProps` threw on the clone; nothing is appended
    | Appended       // the clone is the menu's new last child

  /** The open menu after one call of `InjectCopyMsgIdBtn`, and how it ended. */
  function Injection(menu: Node): (Node, Outcome)
  {
    if BtnInjectedAlready(menu) then (menu, MarkerPresent)
    else match FirstMatch(menu, IsVisibleEntry)
      case None => (menu, TemplateAbsent)
      case Some(template) =>
        FirstMatchSpec(menu, IsVisibleEntry);
        match MenuItemProps(At(menu, template))
        case Failure(_) => (menu, Threw)
        case Success(clone) => (menu.(children := menu.children + [clone]), Appended)
  }

  /** The page as the injector sees it. */
  class Page {
    /** The element `document.querySelector("[role=presentation] [role=menu]")`
        finds, if a message menu is open. */
    var menu: Option<Node>

    constructor (menu: Option<Node>)
      ensures this.menu == menu
    {
      this.menu := menu;
    }

    /** `InjectCopyMsgIdBtn()`: the menu is changed in place, by appending. */
    method InjectCopyMsgIdBtn() returns (outcome: Outcome)
      modifies this
      ensures old(menu).None? ==> menu == None && outcome == MenuAbsent
      ensures old(menu).Some? ==>
        menu == Some(Injection(old(menu).value).0) && outcome == Injection(old(menu).value).1
    {
      if menu.None? {
        return MenuAbsent;
      }
      var m := menu.value;
      if BtnInjectedAlready(m) {
        return MarkerPresent;
      }
      var copyMsgIdItem := FirstMatch(m, IsVisibleEntry);
      if copyMsgIdItem.None? {
        return TemplateAbsent;
      }
      FirstMatchSpec(m, IsVisibleEntry);
      var clone := At(m, copyMsgIdItem.value);
      var props := SetMenuItemProps(clone);
      if props.Failure? {
        return Threw;
      }
      menu := Some(m.(children := m.children + [props.value]));
      return Appended;
    }
  }

  /** The paths of the untouched entries mean the same nodes after an append. */
  lemma {:induction false} AppendKeepsOld(menu: Node, clone: Node, p: Path)
    requires p != [] && p[0] < |menu.children|
    ensures ValidPath(menu.(children := menu.children + [clone]), p) <==> ValidPath(menu, p)
    ensures ValidPath(menu, p) ==> At(menu.(children := menu.children + [clone]), p) == At(menu, p)
  {
    var m' := menu.(children := menu.children + [clone]);
    assert m'.children[p[0]] == menu.children[p[0]];
  }

  /** What one call does to an open menu. It returns early, leaving the menu
      as it was, when the marker is already below the menu, when no entry is
      visible, or when every node of the template is an image (the call then
      throws). Otherwise the template is the first visible entry in document
      order; its relabelled clone becomes the new last child, every earlier
      child is kept, and the clone's root is the only node below the menu that
      carries the marker id. */
  lemma InjectionSpec(menu: Node)
    ensures Injection(menu).1 == MarkerPresent <==> BtnInjectedAlready(menu)
    ensures Injection(menu).1 == TemplateAbsent <==>
      !BtnInjectedAlready(menu) && forall q :: q != [] && ValidPath(menu, q) ==> !IsVisibleEntry(At(menu, q))
    ensures Injection(menu).1 != MenuAbsent
    ensures Injection(menu).1 != Appended ==> Injection(menu).0 == menu
    ensures Injection(menu).1 in {Threw, Appended} ==>
      var template := FirstMatch(menu, IsVisibleEntry).value;
      && template != [] && ValidPath(menu, template) && IsVisibleEntry(At(menu, template))
      && (forall q :: q != [] && ValidPath(menu, q) && PreBefore(q, template) ==> !IsVisibleEntry(At(menu, q)))
      && (Injection(menu).1 == Threw <==>
            forall q :: ValidPath(At(menu, template), q) ==> At(At(menu, template), q).tag == ImageTag)
      && (Injection(menu).1 == Appended ==>
            && Injection(menu).0.children == menu.children + [MenuItemProps(At(menu, template)).value]
            && Injection(menu).0.children[|menu.children|].id == MarkerId
            && forall p :: p != [] && ValidPath(Injection(menu).0, p) && At(Injection(menu).0, p).id == MarkerId
                 ==> p == [|menu.children|])
  {
    FirstMatchSpec(menu, IsVisibleEntry);
    if !BtnInjectedAlready(menu) && FirstMatch(menu, IsVisibleEntry).Some? {
      var template := FirstMatch(menu, IsVisibleEntry).value;
      var entry := At(menu, template);
      MenuItemPropsSpec(entry);
      if MenuItemProps(entry).Success? {
        var clone := MenuItemProps(entry).value;
        assert Injection(menu).0 == menu.(children := menu.children + [clone]);
        MarkedOnlyAtClone(menu, template, clone);
      }
    }
  }

  /** Appending the relabelled clone of a template to a menu without the
      marker leaves the clone's root as the only marked node below the menu. */
  lemma MarkedOnlyAtClone(menu: Node, template: Path, clone: Node)
    requires !BtnInjectedAlready(menu)
    requires template != [] && ValidPath(menu, template)
    requires MenuItemProps(At(menu, template)) == Success(clone)
    ensures forall p :: p != [] && ValidPath(menu.(children := menu.children + [clone]), p)
              && At(menu.(children := menu.children + [clone]), p).id == MarkerId
              ==> p == [|menu.children|]
  {
    MenuItemPropsSpec(At(menu, template));
    var m' := menu.(children := menu.children + [clone]);
    forall p | p != [] && ValidPath(m', p)
      ensures At(m', p).id == MarkerId ==> p == [|menu.children|]
    {
      if p[0] < |menu.children| {
        AppendKeepsOld(menu, clone, p);
        assert At(m', p).id != MarkerId;
      } else {
        assert m'.children[p[0]] == clone;
        var q := p[1..];
        assert ValidPath(clone, q) && At(m', p) == At(clone, q);
        if q != [] {
          AtConcat(menu, template, q);
          assert At(m', p).id != MarkerId;
        } else {
          PathTail(p, |menu.children|);
        }
      }
    }
  }

  /** Injection is idempotent: a second call leaves the menu as the first call
      left it, and after a successful first call it stops at the marker check. */
  lemma InjectionIdempotent(menu: Node)
    ensures Injection(Injection(menu).0).0 == Injection(menu).0
    ensures Injection(menu).1 == Appended ==> Injection(Injection(menu).0).1 == MarkerPresent
  {
    InjectionSpec(menu);
    var (m', outcome) := Injection(menu);
    if outcome == Appended {
      var p := [|menu.children|];
      assert ValidPath(m', p) && At(m', p) == m'.children[|menu.children|];
      assert BtnInjectedAlready(m');
    }
  }
}
