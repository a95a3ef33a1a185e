/**
 * The "More" trigger registry: the module-level list `menuBtns` that the
 * mutation observer's callback extends, skipping any button whose id is
 * already tracked.
 */
module Registry {
  import opened Wrappers

  /** A "More" options button: `element` stands for the DOM object's
      identity, `id` for its `id` attribute (possibly empty), taken as fixed
      once the button is seen. */
  datatype Button = Button(element: nat, id: string)

  /** One entry of a mutation record's `addedNodes`: whether it is an
      element (`nodeType == 1`) and what
      `querySelector("[role=button][data-tooltip=More]")` finds in its subtree. */
  datatype AddedNode = AddedNode(isElement: bool, moreButton: Option<Button>)

  /** A mutation record, reduced to its added nodes. */
  type MutationRecord = seq<AddedNode>

  /** `menuBtns.some(btn => btn.id == id)` */
  predicate Tracks(buttons: seq<Button>, id: string)
  {
    exists k :: 0 <= k < |buttons| && buttons[k].id == id
  }

  /** No two tracked buttons share an id. */
  predicate DistinctIds(buttons: seq<Button>)
  {
    forall i, j :: 0 <= i < j < |buttons| ==> buttons[i].id != buttons[j].id
  }

  /** The buttons the callback considers, in the order it meets them. */
  function Candidates(nodes: seq<AddedNode>): seq<Button>
  {
    if nodes == [] then []
    else
      var last := nodes[|nodes| - 1];
      Candidates(nodes[..|nodes| - 1]) + (if last.isElement && last.moreButton.Some? then [last.moreButton.value] else [])
  }

  /** All candidates of a batch of mutation records, record by record. */
  function BatchCandidates(mutations: seq<MutationRecord>): seq<Button>
  {
    if mutations == [] then []
    else BatchCandidates(mutations[..|mutations| - 1]) + Candidates(mutations[|mutations| - 1])
  }

  /** One candidate against the list: pushed unless its id is tracked. */
  function Offer(buttons: seq<Button>, b: Button): seq<Button>
  {
    if Tracks(buttons, b.id) then buttons else buttons + [b]
  }

  /** The list after offering every candidate in turn. */
  function Track(buttons: seq<Button>, candidates: seq<Button>): seq<Button>
  {
    if candidates == [] then buttons
    else Offer(Track(buttons, candidates[..|candidates| - 1]), candidates[|candidates| - 1])
  }

  class TriggerRegistry {
    /** `menuBtns` */
    var menuBtns: seq<Button>

    /** The registry's invariant: no id is tracked twice. */
    predicate Valid()
      reads this
    {
      DistinctIds(menuBtns)
    }

    constructor ()
      ensures Valid() && menuBtns == []
    {
      menuBtns := [];
    }

    /** The observer's callback on one batch of mutation records: existing
        entries keep their places, the invariant is kept, and the list is the
        old one with the batch's candidates offered in order. */
    method OnMutations(mutations: seq<MutationRecord>)
      requires Valid()
      modifies this
      ensures Valid()
      ensures |menuBtns| >= |old(menuBtns)| && menuBtns[..|old(menuBtns)|] == old(menuBtns)
      ensures menuBtns == Track(old(menuBtns), BatchCandidates(mutations))
    {
      ghost var start := menuBtns;
      for i := 0 to |mutations|
        invariant menuBtns == Track(start, BatchCandidates(mutations[..i]))
      {
        var mutation := mutations[i];
        ghost var seen := BatchCandidates(mutations[..i]);
        assert seen + Candidates(mutation[..0]) == seen;
        for j := 0 to |mutation|
          invariant menuBtns == Track(start, seen + Candidates(mutation[..j]))
        {
          var node := mutation[j];
          assert mutation[..j + 1][..j] == mutation[..j];
          ghost var found := Candidates(mutation[..j]);
          if node.isElement && node.moreButton.Some? {
            assert seen + Candidates(mutation[..j + 1]) == (seen + found) + [node.moreButton.value];
            TrackSnoc(start, seen + found, node.moreButton.value);
          } else {
            assert seen + Candidates(mutation[..j + 1]) == seen + found;
          }
          if node.isElement {
            var menuBtn := node.moreButton;
            if menuBtn.None? || Tracks(menuBtns, menuBtn.value.id) {
              continue;
            }
            menuBtns := menuBtns + [menuBtn.value];
          }
        }
        assert mutation[..|mutation|] == mutation;
        assert mutations[..i + 1][..i] == mutations[..i];
      }
      assert mutations[..|mutations|] == mutations;
      TrackExtends(start, BatchCandidates(mutations));
      TrackKeepsIdsDistinct(start, BatchCandidates(mutations));
    }
  }

  lemma TrackSnoc(buttons: seq<Button>, candidates: seq<Button>, b: Button)
    ensures Track(buttons, candidates + [b]) == Offer(Track(buttons, candidates), b)
  {
    assert (candidates + [b])[..|candidates|] == candidates;
  }

  /** The list only grows, at its end: every tracked button keeps its place. */
  lemma {:induction false} TrackExtends(buttons: seq<Button>, candidates: seq<Button>)
    ensures |Track(buttons, candidates)| >= |buttons|
    ensures Track(buttons, candidates)[..|buttons|] == buttons
    ensures forall k :: |buttons| <= k < |Track(buttons, candidates)| ==> Track(buttons, candidates)[k] in candidates
  {
    if candidates != [] {
      var front := candidates[..|candidates| - 1];
      TrackExtends(buttons, front);
      var before := Track(buttons, front);
      assert before[..|buttons|] == buttons;
      assert forall b :: b in front ==> b in candidates;
    }
  }

  /** A candidate is added exactly when no tracked button has its id: a
      candidate with a tracked id leaves the list as it was. */
  lemma OfferSpec(buttons: seq<Button>, b: Button)
    ensures Tracks(buttons, b.id) ==> Offer(buttons, b) == buttons
    ensures !Tracks(buttons, b.id) ==> Offer(buttons, b) == buttons + [b]
    ensures Tracks(Offer(buttons, b), b.id)
  {
    if !Tracks(buttons, b.id) {
      assert (buttons + [b])[|buttons|] == b;
    }
  }

  /** After the callback no two tracked buttons share an id. */
  lemma {:induction false} TrackKeepsIdsDistinct(buttons: seq<Button>, candidates: seq<Button>)
    requires DistinctIds(buttons)
    ensures DistinctIds(Track(buttons, candidates))
  {
    if candidates != [] {
      TrackKeepsIdsDistinct(buttons, candidates[..|candidates| - 1]);
    }
  }

  /** The ids tracked afterwards are the ids tracked before and those of the
      candidates: every candidate's id is tracked, and no other id is. */
  lemma {:induction false} TrackIds(buttons: seq<Button>, candidates: seq<Button>, id: string)
    ensures Tracks(Track(buttons, candidates), id) <==>
      Tracks(buttons, id) || exists k :: 0 <= k < |candidates| && candidates[k].id == id
  {
    if candidates != [] {
      var front := candidates[..|candidates| - 1];
      var b := candidates[|candidates| - 1];
      TrackIds(buttons, front, id);
      var before := Track(buttons, front);
      OfferSpec(before, b);
      if Tracks(Offer(before, b), id) && b.id != id {
        var k :| 0 <= k < |Offer(before, b)| && Offer(before, b)[k].id == id;
        assert k < |before| && before[k].id == id;
      }
      if exists k :: 0 <= k < |front| && front[k].id == id {
        var k :| 0 <= k < |front| && front[k].id == id;
        assert candidates[k].id == id;
      }
      if exists k :: 0 <= k < |candidates| && candidates[k].id == id {
        var k :| 0 <= k < |candidates| && candidates[k].id == id;
        if k < |front| {
          assert front[k].id == id;
        }
      }
      if Tracks(before, id) {
        var k :| 0 <= k < |before| && before[k].id == id;
        assert Offer(before, b)[k] == before[k];
      }
    }
  }

  /** Deduplication is by id, not by element: of two distinct buttons with
      the same (here empty) id, only the first is tracked. */
  lemma SameIdDistinctElements()
    ensures Track([], [Button(1, ""), Button(2, "")]) == [Button(1, "")]
  {
    var cs := [Button(1, ""), Button(2, "")];
    assert cs[..1] == [Button(1, "")];
    assert [Button(1, "")][..0] == [];
    assert Track([], [Button(1, "")]) == [Button(1, "")];
    assert Tracks([Button(1, "")], "");
  }
}
