/** `handleActivePath` of the sidebar menu: which item key is selected for the current path. */
module SidebarMenu {
  import opened Wrappers

  /** A menu item: its key, its link, whether its `type` is `Nest`, and its sub-items. The
      title, icon and render-only fields play no part in the lookup. */
  datatype SidebarItem = SidebarItem(key: string, href: Option<string>, isNest: bool, items: Option<seq<SidebarItem>>)

  /** `item.items && item.items.length > 0`. */
  predicate HasChildren(item: SidebarItem) {
    item.items.Some? && |item.items.value| > 0
  }

  /** The keys of the direct children whose link is the path, in order. */
  function ChildMatches(children: seq<SidebarItem>, path: string): (keys: seq<string>)
    ensures |keys| <= |children|
  {
    if children == [] then []
    else
      var last := children[|children| - 1];
      ChildMatches(children[..|children| - 1], path) + (if last.href == Some(path) then [last.key] else [])
  }

  /** A key is assigned by the children exactly when some direct child has that key and links
      to the path. */
  lemma {:induction false} ChildMatchesExactly(children: seq<SidebarItem>, path: string, k: string)
    ensures k in ChildMatches(children, path) <==> exists c :: c in children && c.href == Some(path) && c.key == k
  {
    if children != [] {
      var last := children[|children| - 1];
      var init := children[..|children| - 1];
      ChildMatchesExactly(init, path, k);
      assert forall c :: c in children <==> c in init || c == last;
    }
  }

  /** The assignments to `itemActive` one item makes, in order: a `Nest` item with sub-items
      makes none, another item with sub-items one per matching direct child, an item without
      sub-items one if its own link matches. */
  function Contribution(item: SidebarItem, path: string): (keys: seq<string>)
    ensures HasChildren(item) && item.isNest ==> keys == []
    ensures !HasChildren(item) ==> (keys != [] <==> item.href == Some(path))
    ensures !HasChildren(item) && keys != [] ==> keys == [item.key]
  {
    if HasChildren(item) && item.isNest then []
    else if HasChildren(item) then ChildMatches(item.items.value, path)
    else if item.href == Some(path) then [item.key]
    else []
  }

  /** An item with sub-items that is not `Nest` assigns exactly the keys of its matching direct
      children. */
  lemma ParentContribution(item: SidebarItem, path: string, k: string)
    requires HasChildren(item) && !item.isNest
    ensures k in Contribution(item, path) <==> exists c :: c in item.items.value && c.href == Some(path) && c.key == k
  {
    ChildMatchesExactly(item.items.value, path, k);
  }

  /** Every assignment to `itemActive` over a prefix of the items, in order. */
  function Matches(items: seq<SidebarItem>, path: string): seq<string> {
    if items == [] then []
    else Matches(items[..|items| - 1], path) + Contribution(items[|items| - 1], path)
  }

  /** The value a variable holds after the assignments `s`, starting from `d`. */
  function LastOr(s: seq<string>, d: Option<string>): (r: Option<string>)
    ensures r.None? <==> s == [] && d.None?
    ensures s != [] ==> r == Some(s[|s| - 1])
  {
    if s == [] then d else Some(s[|s| - 1])
  }

  /** The key `handleActivePath` returns: the last assignment, or `undefined`. */
  function ActiveKey(items: seq<SidebarItem>, path: string): Option<string> {
    LastOr(Matches(items, path), None)
  }

  /** The selected key handed to the list box: `${handleActivePath()}`. */
  function SelectedKey(items: seq<SidebarItem>, path: string): (r: string)
    ensures ActiveKey(items, path).Some? ==> r == ActiveKey(items, path).value
  {
    match ActiveKey(items, path)
    case Some(k) => k
    case None => "undefined"
  }

  lemma {:induction false} LastOrAppend(a: seq<string>, b: seq<string>, d: Option<string>)
    ensures LastOr(a + b, d) == LastOr(b, LastOr(a, d))
  {
    if b != [] {
      assert (a + b)[|a + b| - 1] == b[|b| - 1];
    } else {
      assert a + b == a;
    }
  }

  /** One more child: it overwrites the value if its link is the path. */
  lemma ChildStep(children: seq<SidebarItem>, j: nat, path: string, d: Option<string>)
    requires j < |children|
    ensures LastOr(ChildMatches(children[..j + 1], path), d)
         == if children[j].href == Some(path) then Some(children[j].key) else LastOr(ChildMatches(children[..j], path), d)
  {
    assert children[..j + 1][..j] == children[..j];
    LastOrAppend(ChildMatches(children[..j], path),
                 if children[j].href == Some(path) then [children[j].key] else [], d);
  }

  /** One more item: its assignments follow those of the items before it. */
  lemma ItemStep(items: seq<SidebarItem>, i: nat, path: string)
    requires i < |items|
    ensures LastOr(Matches(items[..i + 1], path), None)
         == LastOr(Contribution(items[i], path), LastOr(Matches(items[..i], path), None))
  {
    assert items[..i + 1][..i] == items[..i];
    LastOrAppend(Matches(items[..i], path), Contribution(items[i], path), None);
  }

  /** `handleActivePath()`: the nested `map`s used as loops, each match overwriting `itemActive`. */
  method HandleActivePath(items: seq<SidebarItem>, path: string) returns (itemActive: Option<string>)
    ensures itemActive == ActiveKey(items, path)
  {
    itemActive := None;
    var i := 0;
    while i < |items|
      invariant 0 <= i <= |items|
      invariant itemActive == LastOr(Matches(items[..i], path), None)
    {
      var item := items[i];
      ghost var before := itemActive;
      if HasChildren(item) && item.isNest {
      } else if HasChildren(item) {
        var children := item.items.value;
        var j := 0;
        while j < |children|
          invariant 0 <= j <= |children|
          invariant itemActive == LastOr(ChildMatches(children[..j], path), before)
        {
          ChildStep(children, j, path, before);
          if children[j].href == Some(path) {
            itemActive := Some(children[j].key);
          }
          j := j + 1;
        }
        assert children[..j] == children;
      } else {
        if item.href == Some(path) {
          itemActive := Some(item.key);
        }
      }
      assert itemActive == LastOr(Contribution(item, path), before);
      ItemStep(items, i, path);
      i := i + 1;
    }
    assert items[..i] == items;
  }

  /** The position of the last item that assigns, or -1 when none does. */
  function LastAssigner(items: seq<SidebarItem>, path: string): (i: int)
    ensures -1 <= i < |items|
    ensures i >= 0 ==> Contribution(items[i], path) != []
    ensures forall j :: i < j < |items| ==> Contribution(items[j], path) == []
  {
    if items == [] then -1
    else if Contribution(items[|items| - 1], path) != [] then |items| - 1
    else
      var init := items[..|items| - 1];
      assert forall j :: 0 <= j < |init| ==> init[j] == items[j];
      LastAssigner(init, path)
  }

  /** The result is the last key assigned by the last item that assigns, and `undefined` when no
      item assigns. */
  lemma {:induction false} ActiveKeyIsLastMatch(items: seq<SidebarItem>, path: string)
    ensures var i := LastAssigner(items, path);
      && (i < 0 <==> ActiveKey(items, path).None?)
      && (i >= 0 ==> ActiveKey(items, path) == Some(Contribution(items[i], path)[|Contribution(items[i], path)| - 1]))
  {
    if items != [] {
      var n := |items| - 1;
      var init := items[..n];
      LaterMatchWins(init, items[n], path);
      assert init + [items[n]] == items;
      if Contribution(items[n], path) == [] {
        ActiveKeyIsLastMatch(init, path);
        assert LastAssigner(items, path) == LastAssigner(init, path);
        var i := LastAssigner(init, path);
        assert i >= 0 ==> init[i] == items[i];
      }
    }
  }

  /** No item assigns exactly when the result is `undefined`. */
  lemma NoAssignmentIffUndefined(items: seq<SidebarItem>, path: string)
    ensures ActiveKey(items, path).None? <==> forall i :: 0 <= i < |items| ==> Contribution(items[i], path) == []
  {
    ActiveKeyIsLastMatch(items, path);
  }

  /** Appending an item changes the result only if that item assigns, and then to its last
      assignment: a later match overwrites an earlier one. */
  lemma {:induction false} LaterMatchWins(items: seq<SidebarItem>, item: SidebarItem, path: string)
    ensures Contribution(item, path) != [] ==>
      ActiveKey(items + [item], path) == Some(Contribution(item, path)[|Contribution(item, path)| - 1])
    ensures Contribution(item, path) == [] ==> ActiveKey(items + [item], path) == ActiveKey(items, path)
  {
    assert (items + [item])[..|items|] == items;
    LastOrAppend(Matches(items, path), Contribution(item, path), None);
  }

  /** A `Nest` item with sub-items is skipped, whatever its link and its sub-items' links. */
  lemma NestItemSkipped(items: seq<SidebarItem>, item: SidebarItem, path: string)
    requires HasChildren(item) && item.isNest
    ensures ActiveKey(items + [item], path) == ActiveKey(items, path)
  {
    LaterMatchWins(items, item, path);
  }

  /** Only direct children are searched: children with the same keys and links but other
      sub-items give the same matches. */
  lemma {:induction false} GrandchildrenIgnored(children: seq<SidebarItem>, other: seq<SidebarItem>, path: string)
    requires |other| == |children|
    requires forall i :: 0 <= i < |children| ==> other[i].key == children[i].key && other[i].href == children[i].href
    ensures ChildMatches(children, path) == ChildMatches(other, path)
  {
    if children != [] {
      var n := |children| - 1;
      GrandchildrenIgnored(children[..n], other[..n], path);
    }
  }

  /** An item with sub-items is never selected by its own link, even when it matches. */
  lemma {:induction false} ParentLinkIgnored(item: SidebarItem, path: string)
    requires HasChildren(item) && item.href == Some(path)
    requires forall c :: c in item.items.value ==> c.key != item.key
    ensures item.key !in Contribution(item, path)
  {
    if !item.isNest {
      ParentContribution(item, path, item.key);
    }
  }

  /** With no match the list box is told to select the key `"undefined"`. */
  lemma NoMatchSelectsUndefined(items: seq<SidebarItem>, path: string)
    requires forall i :: 0 <= i < |items| ==> Contribution(items[i], path) == []
    ensures SelectedKey(items, path) == "undefined"
  {
    NoAssignmentIffUndefined(items, path);
  }
}
