/**
 * The generic tree view (src/components/ui/file-tree.tsx): the elements it displays, the
 * expanded-items state with its controlled and uncontrolled modes, the expand toggle,
 * expand-all, close-all, the expansion of the ancestors of a selected element, and the
 * selection test of a file row.
 */
module TreeView {
  import opened Wrappers

  /** The optional `children` of an element, as its own datatype so that termination follows the tree. */
  datatype Subtree = Leaf | Branch(elements: seq<Element>)

  /** `TreeViewElement`. */
  datatype Element = Element(id: string, name: string, isSelectable: Option<bool>, children: Subtree)

  /** `isSelectable ?? true`. */
  predicate Selectable(e: Element) {
    e.isSelectable.GetOr(true)
  }

  /** A selectable element with a non-empty list of children: the only kind expand-all opens or descends into. */
  predicate Expandable(e: Element) {
    Selectable(e) && e.children.Branch? && |e.children.elements| > 0
  }

  // ---------------------------------------------------------------------------------------
  // The expand toggle
  // ---------------------------------------------------------------------------------------

  /** `filter((item) => item !== id)`. */
  function Without(s: seq<string>, id: string): (r: seq<string>)
    ensures forall x :: x in r <==> x in s && x != id
    ensures |r| <= |s|
  {
    if s == [] then []
    else (if s[0] == id then [] else [s[0]]) + Without(s[1..], id)
  }

  lemma {:induction false} WithoutAppend(s: seq<string>, t: seq<string>, id: string)
    ensures Without(s + t, id) == Without(s, id) + Without(t, id)
  {
    if s == [] {
      assert s + t == t;
    } else {
      assert (s + t)[1..] == s[1..] + t;
      WithoutAppend(s[1..], t, id);
    }
  }

  lemma {:induction false} WithoutAbsent(s: seq<string>, id: string)
    requires id !in s
    ensures Without(s, id) == s
  {
    if s != [] {
      WithoutAbsent(s[1..], id);
      assert s == [s[0]] + s[1..];
    }
  }

  /**
   * The updater of `handleExpand`: a present id is removed (every occurrence), an absent one
   * is appended at the end of the list (an unset list counts as empty).
   */
  function Toggle(prev: Option<seq<string>>, id: string): (r: seq<string>)
    ensures id in r <==> !(prev.Some? && id in prev.value)
    ensures forall x :: x != id ==> (x in r <==> prev.Some? && x in prev.value)
    ensures !(prev.Some? && id in prev.value) ==> r[..|r| - 1] == prev.GetOr([]) && r[|r| - 1] == id
  {
    if prev.Some? && id in prev.value then Without(prev.value, id) else prev.GetOr([]) + [id]
  }

  /** Toggling an absent id twice gives back the original list. */
  lemma {:induction false} ToggleTwice(prev: seq<string>, id: string)
    requires id !in prev
    ensures Toggle(Some(Toggle(Some(prev), id)), id) == prev
  {
    WithoutAppend(prev, [id], id);
    WithoutAbsent(prev, id);
    assert Without([id], id) == [];
  }

  // ---------------------------------------------------------------------------------------
  // Routes through the tree
  // ---------------------------------------------------------------------------------------

  /**
   * `ids` names a route from the top level of `es` down to `t`: each id is that of an
   * element among the children of the previous one, every element before `t` is
   * expandable, and the last one is `t`.
   */
  ghost predicate RouteTo(es: seq<Element>, ids: seq<string>, t: Element)
    decreases |ids|
  {
    |ids| >= 1
    && exists i :: 0 <= i < |es| && es[i].id == ids[0]
                   && if |ids| == 1 then es[i] == t
                      else Expandable(es[i]) && RouteTo(es[i].children.elements, ids[1..], t)
  }

  /** A route through the children of an expandable element extends to a route from its level. */
  lemma {:induction false} RouteThrough(es: seq<Element>, i: nat, ids: seq<string>, t: Element)
    requires i < |es| && Expandable(es[i]) && RouteTo(es[i].children.elements, ids, t)
    ensures RouteTo(es, [es[i].id] + ids, t)
  {
    var ids' := [es[i].id] + ids;
    assert ids'[1..] == ids;
  }

  /** A route from a level's tail is a route from the level. */
  lemma {:induction false} RouteFromTail(es: seq<Element>, ids: seq<string>, t: Element)
    requires es != [] && RouteTo(es[1..], ids, t)
    ensures RouteTo(es, ids, t)
  {
    var i :| 0 <= i < |es[1..]| && es[1..][i].id == ids[0]
             && if |ids| == 1 then es[1..][i] == t
                else Expandable(es[1..][i]) && RouteTo(es[1..][i].children.elements, ids[1..], t);
    assert es[i + 1] == es[1..][i];
  }

  // ---------------------------------------------------------------------------------------
  // Expand all
  // ---------------------------------------------------------------------------------------

  /** The ids `expendAllTree` collects from a list of elements, in preorder. */
  function ExpandableIds(es: seq<Element>): seq<string>
    decreases es
  {
    if es == [] then [] else ExpandableIdsOf(es[0]) + ExpandableIds(es[1..])
  }

  /** `collectExpandableIds` for one element: its id and then its children's, if it is expandable. */
  function ExpandableIdsOf(e: Element): seq<string>
    decreases e
  {
    if Expandable(e) then [e.id] + ExpandableIds(e.children.elements) else []
  }

  lemma {:induction false} ExpandableIdsAppend(a: seq<Element>, b: seq<Element>)
    ensures ExpandableIds(a + b) == ExpandableIds(a) + ExpandableIds(b)
  {
    if a == [] {
      assert a + b == b;
    } else {
      assert (a + b)[1..] == a[1..] + b;
      ExpandableIdsAppend(a[1..], b);
    }
  }

  /** Every id collected from one element of a level is collected from the level. */
  lemma {:induction false} ExpandableIdsOfElement(es: seq<Element>, i: nat, x: string)
    requires i < |es| && x in ExpandableIdsOf(es[i])
    ensures x in ExpandableIds(es)
  {
    if i > 0 {
      ExpandableIdsOfElement(es[1..], i - 1, x);
    }
  }

  /** Each collected id is that of an expandable element reached through expandable ones. */
  lemma {:induction false} ExpandableIdsSound(es: seq<Element>, x: string)
    requires x in ExpandableIds(es)
    ensures exists ids, t :: RouteTo(es, ids, t) && Expandable(t) && t.id == x
    decreases es
  {
    if x in ExpandableIdsOf(es[0]) {
      var e := es[0];
      if x == e.id {
        assert RouteTo(es, [x], e);
      } else {
        ExpandableIdsSound(e.children.elements, x);
        var ids, t :| RouteTo(e.children.elements, ids, t) && Expandable(t) && t.id == x;
        RouteThrough(es, 0, ids, t);
      }
    } else {
      ExpandableIdsSound(es[1..], x);
      var ids, t :| RouteTo(es[1..], ids, t) && Expandable(t) && t.id == x;
      RouteFromTail(es, ids, t);
    }
  }

  /** Each expandable element reached through expandable ones is collected. */
  lemma {:induction false} ExpandableIdsComplete(es: seq<Element>, ids: seq<string>, t: Element)
    requires RouteTo(es, ids, t) && Expandable(t)
    ensures t.id in ExpandableIds(es)
    decreases |ids|
  {
    var i :| 0 <= i < |es| && es[i].id == ids[0]
             && if |ids| == 1 then es[i] == t
                else Expandable(es[i]) && RouteTo(es[i].children.elements, ids[1..], t);
    if |ids| > 1 {
      ExpandableIdsComplete(es[i].children.elements, ids[1..], t);
    }
    ExpandableIdsOfElement(es, i, t.id);
  }

  /** `expendAllTree`'s traversal over a list of elements. */
  method CollectExpandableIds(es: seq<Element>) returns (ids: seq<string>)
    ensures ids == ExpandableIds(es)
    decreases es
  {
    ids := [];
    for i := 0 to |es|
      invariant ids == ExpandableIds(es[..i])
    {
      var more := CollectFrom(es[i]);
      assert es[..i + 1] == es[..i] + [es[i]];
      ExpandableIdsAppend(es[..i], [es[i]]);
      assert ExpandableIds([es[i]]) == ExpandableIdsOf(es[i]) + ExpandableIds([]);
      ids := ids + more;
    }
    assert es[..|es|] == es;
  }

  /** `collectExpandableIds`: an expandable element contributes its id, then its children's. */
  method CollectFrom(e: Element) returns (ids: seq<string>)
    ensures ids == ExpandableIdsOf(e)
    decreases e
  {
    ids := [];
    if Selectable(e) && e.children.Branch? && |e.children.elements| > 0 {
      var below := CollectExpandableIds(e.children.elements);
      ids := [e.id] + below;
    }
  }

  // ---------------------------------------------------------------------------------------
  // Expanding the route to a selected element
  // ---------------------------------------------------------------------------------------

  /**
   * The lists `findParent` hands to the setter when started on `es` with the route `cur`
   * so far: at an element with the selected id, the route including it when it is
   * selectable and without it otherwise, and no further descent; elsewhere, descent only
   * into expandable elements.
   */
  function TargetRoutes(es: seq<Element>, sel: string, cur: seq<string>): seq<seq<string>>
    decreases es
  {
    if es == [] then [] else TargetRoutesOf(es[0], sel, cur) + TargetRoutes(es[1..], sel, cur)
  }

  function TargetRoutesOf(e: Element, sel: string, cur: seq<string>): seq<seq<string>>
    decreases e
  {
    var newPath := cur + [e.id];
    if e.id == sel then (if Selectable(e) then [newPath] else [cur])
    else if Expandable(e) then TargetRoutes(e.children.elements, sel, newPath)
    else []
  }

  /** The part of a route to `t` that is expanded: all of it when `t` is selectable, else all but `t`. */
  function Shown(t: Element, ids: seq<string>): seq<string>
    requires |ids| >= 1
  {
    if Selectable(t) then ids else ids[..|ids| - 1]
  }

  /** `p` is `cur` followed by the expanded part of some route from `es` to an element with id `sel`. */
  ghost predicate RouteList(es: seq<Element>, sel: string, cur: seq<string>, p: seq<string>) {
    exists ids, t :: RouteTo(es, ids, t) && t.id == sel && p == cur + Shown(t, ids)
  }

  /** A route list found below an expandable element is one from its level. */
  lemma {:induction false} RouteListThrough(es: seq<Element>, sel: string, cur: seq<string>, p: seq<string>)
    requires es != [] && Expandable(es[0]) && RouteList(es[0].children.elements, sel, cur + [es[0].id], p)
    ensures RouteList(es, sel, cur, p)
  {
    var e := es[0];
    var ids, t :| RouteTo(e.children.elements, ids, t) && t.id == sel && p == cur + [e.id] + Shown(t, ids);
    RouteThrough(es, 0, ids, t);
    var ids' := [e.id] + ids;
    if !Selectable(t) {
      assert ids'[..|ids'| - 1] == [e.id] + ids[..|ids| - 1];
    }
    assert p == cur + Shown(t, ids');
  }

  /** A route list found in a level's tail is one from the level. */
  lemma {:induction false} RouteListFromTail(es: seq<Element>, sel: string, cur: seq<string>, p: seq<string>)
    requires es != [] && RouteList(es[1..], sel, cur, p)
    ensures RouteList(es, sel, cur, p)
  {
    var ids, t :| RouteTo(es[1..], ids, t) && t.id == sel && p == cur + Shown(t, ids);
    RouteFromTail(es, ids, t);
  }

  /**
   * Each list handed to the setter is `cur` followed by a route to an element with the
   * selected id, without that element's own id when it is not selectable.
   */
  lemma {:induction false} TargetRoutesSound(es: seq<Element>, sel: string, cur: seq<string>, p: seq<string>)
    requires p in TargetRoutes(es, sel, cur)
    ensures RouteList(es, sel, cur, p)
    decreases es
  {
    var e := es[0];
    if p in TargetRoutesOf(e, sel, cur) {
      if e.id == sel {
        assert RouteTo(es, [e.id], e);
        assert [e.id][..0] == [];
        assert p == cur + Shown(e, [e.id]);
      } else {
        TargetRoutesSound(e.children.elements, sel, cur + [e.id], p);
        RouteListThrough(es, sel, cur, p);
      }
    } else {
      TargetRoutesSound(es[1..], sel, cur, p);
      RouteListFromTail(es, sel, cur, p);
    }
  }

  /** Every list found from one element of a level is found from the level. */
  lemma {:induction false} TargetRoutesOfElement(es: seq<Element>, i: nat, sel: string, cur: seq<string>, p: seq<string>)
    requires i < |es| && p in TargetRoutesOf(es[i], sel, cur)
    ensures p in TargetRoutes(es, sel, cur)
  {
    if i > 0 {
      TargetRoutesOfElement(es[1..], i - 1, sel, cur, p);
    }
  }

  /**
   * Conversely, every route to an element with the selected id that passes no other
   * element with that id is handed to the setter.
   */
  lemma {:induction false} TargetRoutesComplete(es: seq<Element>, sel: string, cur: seq<string>,
                                                ids: seq<string>, t: Element)
    requires RouteTo(es, ids, t) && t.id == sel && sel !in ids[..|ids| - 1]
    ensures cur + Shown(t, ids) in TargetRoutes(es, sel, cur)
    decreases |ids|
  {
    var i :| 0 <= i < |es| && es[i].id == ids[0]
             && if |ids| == 1 then es[i] == t
                else Expandable(es[i]) && RouteTo(es[i].children.elements, ids[1..], t);
    if |ids| == 1 {
      assert ids == [t.id];
      if Selectable(t) {
        assert TargetRoutesOf(es[i], sel, cur) == [cur + ids];
      } else {
        assert Shown(t, ids) == [];
        assert cur + Shown(t, ids) == cur;
      }
    } else {
      assert ids[0] in ids[..|ids| - 1];
      assert ids[1..][..|ids[1..]| - 1] == ids[..|ids| - 1][1..];
      TargetRoutesComplete(es[i].children.elements, sel, cur + [ids[0]], ids[1..], t);
      assert ids == [ids[0]] + ids[1..];
      if !Selectable(t) {
        assert ids[..|ids| - 1] == [ids[0]] + ids[1..][..|ids| - 2];
      }
      assert cur + Shown(t, ids) == cur + [ids[0]] + Shown(t, ids[1..]);
      assert es[i].id != sel;
      assert TargetRoutesOf(es[i], sel, cur) == TargetRoutes(es[i].children.elements, sel, cur + [ids[0]]);
    }
    TargetRoutesOfElement(es, i, sel, cur, cur + Shown(t, ids));
  }

  /** `isSelect ?? selectedId === value`: the selection test of a file row. */
  function IsSelected(isSelect: Option<bool>, selectedId: Option<string>, value: string): (r: bool)
    ensures isSelect.None? ==> (r <==> selectedId == Some(value))
    ensures isSelect.Some? ==> r == isSelect.value
  {
    isSelect.GetOr(selectedId == Some(value))
  }

  // ---------------------------------------------------------------------------------------
  // The tree's state
  // ---------------------------------------------------------------------------------------

  class Tree {
    var selectedId: Option<string>
    var internalExpanded: Option<seq<string>>
    /** `props.expandedItems` in the current render. */
    const controlledItems: Option<seq<string>>
    /** Whether `onExpandedItemsChange` was passed: the controlled mode. */
    const controlled: bool
    /** The values handed to `onExpandedItemsChange`, in order. */
    var forwarded: seq<seq<string>>

    constructor (initialSelectedId: Option<string>, initialExpandedItems: Option<seq<string>>,
                 expandedItems: Option<seq<string>>, onChange: bool)
      ensures selectedId == initialSelectedId && internalExpanded == initialExpandedItems
      ensures controlledItems == expandedItems && controlled == onChange && forwarded == []
    {
      selectedId := initialSelectedId;
      internalExpanded := initialExpandedItems;
      controlledItems := expandedItems;
      controlled := onChange;
      forwarded := [];
    }

    /** `props.expandedItems ?? internalExpandedItems`. */
    function ExpandedItems(): (r: Option<seq<string>>)
      reads this
      ensures controlledItems.Some? ==> r == controlledItems
      ensures controlledItems.None? ==> r == internalExpanded
    {
      if controlledItems.Some? then controlledItems else internalExpanded
    }

    /**
     * `setExpandedItems`: in controlled mode the value (an unset one as the empty list) goes
     * to the callback and internal state is untouched; otherwise it replaces internal state.
     */
    method SetExpandedItems(value: Option<seq<string>>)
      modifies this`internalExpanded, this`forwarded
      ensures controlled ==> forwarded == old(forwarded) + [value.GetOr([])] && internalExpanded == old(internalExpanded)
      ensures !controlled ==> internalExpanded == value && forwarded == old(forwarded)
    {
      if controlled {
        forwarded := forwarded + [value.GetOr([])];
      } else {
        internalExpanded := value;
      }
    }

    /** `selectItem`. */
    method SelectItem(id: string)
      modifies this`selectedId
      ensures selectedId == Some(id)
    {
      selectedId := Some(id);
    }

    /** `handleExpand`: the toggled list of the currently expanded items is set. */
    method HandleExpand(id: string)
      modifies this`internalExpanded, this`forwarded
      ensures controlled ==> forwarded == old(forwarded) + [Toggle(old(ExpandedItems()), id)]
                             && internalExpanded == old(internalExpanded)
      ensures !controlled ==> internalExpanded == Some(Toggle(old(ExpandedItems()), id))
                              && forwarded == old(forwarded)
    {
      SetExpandedItems(Some(Toggle(ExpandedItems(), id)));
    }

    /** `expendAllTree`: the collected ids replace the expanded list. */
    method ExpandAll(elements: seq<Element>)
      modifies this`internalExpanded, this`forwarded
      ensures controlled ==> forwarded == old(forwarded) + [ExpandableIds(elements)]
                             && internalExpanded == old(internalExpanded)
      ensures !controlled ==> internalExpanded == Some(ExpandableIds(elements)) && forwarded == old(forwarded)
    {
      var ids := CollectExpandableIds(elements);
      SetExpandedItems(Some(ids));
    }

    /** `closeAll`: the expanded list becomes empty. */
    method CloseAll()
      modifies this`internalExpanded, this`forwarded
      ensures controlled ==> forwarded == old(forwarded) + [[]] && internalExpanded == old(internalExpanded)
      ensures !controlled ==> internalExpanded == Some([]) && forwarded == old(forwarded)
    {
      SetExpandedItems(Some([]));
    }

    /** The collapse button: closes everything when something is expanded, expands everything otherwise. */
    method CollapseClick(elements: seq<Element>)
      modifies this`internalExpanded, this`forwarded
      ensures var items := old(ExpandedItems()).GetOr([]);
              var set_ := if |items| > 0 then [] else ExpandableIds(elements);
              (controlled ==> forwarded == old(forwarded) + [set_] && internalExpanded == old(internalExpanded))
              && (!controlled ==> internalExpanded == Some(set_) && forwarded == old(forwarded))
    {
      var items := ExpandedItems();
      if items.Some? && |items.value| > 0 {
        CloseAll();
      } else {
        ExpandAll(elements);
      }
    }

    /**
     * `expandSpecificTargetedElements`: nothing without elements or a (non-empty) selected
     * id; otherwise each route found by `findParent` is appended to the expanded list as it
     * was when the call began, and set.
     */
    method ExpandSpecific(elements: Option<seq<Element>>, selectId: Option<string>)
      modifies this`internalExpanded, this`forwarded
      ensures elements.None? || selectId.None? || selectId.value == "" ==>
                internalExpanded == old(internalExpanded) && forwarded == old(forwarded)
      ensures elements.Some? && selectId.Some? && selectId.value != "" ==>
                var routes := TargetRoutes(elements.value, selectId.value, []);
                var base := old(ExpandedItems()).GetOr([]);
                (controlled ==>
                   forwarded == old(forwarded) + seq(|routes|, i requires 0 <= i < |routes| => base + routes[i])
                   && internalExpanded == old(internalExpanded))
                && (!controlled ==>
                      forwarded == old(forwarded)
                      && internalExpanded == if routes == [] then old(internalExpanded)
                                             else Some(base + routes[|routes| - 1]))
    {
      if elements.None? || selectId.None? || selectId.value == "" {
        return;
      }
      var routes := TargetRoutes(elements.value, selectId.value, []);
      var base := ExpandedItems().GetOr([]);
      for i := 0 to |routes|
        invariant controlled ==>
                    forwarded == old(forwarded) + seq(i, k requires 0 <= k < i => base + routes[k])
                    && internalExpanded == old(internalExpanded)
        invariant !controlled ==>
                    forwarded == old(forwarded)
                    && internalExpanded == if i == 0 then old(internalExpanded) else Some(base + routes[i - 1])
      {
        SetExpandedItems(Some(base + routes[i]));
        assert controlled ==>
                 seq(i + 1, k requires 0 <= k < i + 1 => base + routes[k])
                 == seq(i, k requires 0 <= k < i => base + routes[k]) + [base + routes[i]];
      }
    }
  }
}
