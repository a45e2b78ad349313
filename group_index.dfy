/** The configuration defaults and the group index of layout.js: the tree
    direction, the order of the groups, and `nodeOrderMap`, which maps a
    leaf name to the group it is listed in and its position there. */
module GroupIndex {
  import opened JsText

  /** A value of `groupData.groups`: `order` may be missing. */
  datatype Group = Group(order: Option<seq<string>>)

  /** `groupData.layout`, with the two settings the core reads. */
  datatype Layout = Layout(direction: Option<string>, groupOrder: Option<seq<string>>)

  /** `groupData`: the layout settings, if any, and the groups under their
      names, in the order in which `Object.keys` lists them. */
  datatype GroupData = GroupData(layout: Option<Layout>, groups: seq<(string, Group)>)

  /** A value of `nodeOrderMap`. */
  datatype Entry = Entry(groupIndex: nat, nodeIndex: nat, groupName: string)

  /** `layout.direction || 'right'`: a missing or empty direction is 'right'. */
  function TreeDirection(data: GroupData): (d: string)
    ensures d != ""
    ensures d == "right" || (data.layout.Some? && data.layout.value.direction == Some(d))
    ensures data.layout.Some? && data.layout.value.direction.Some? && data.layout.value.direction.value != ""
            ==> d == data.layout.value.direction.value
  {
    if data.layout.Some? && data.layout.value.direction.Some? && data.layout.value.direction.value != ""
    then data.layout.value.direction.value
    else "right"
  }

  /** `Object.keys(groupData.groups)`. */
  function Keys(groups: seq<(string, Group)>): (ks: seq<string>)
    ensures |ks| == |groups| && forall i :: 0 <= i < |groups| ==> ks[i] == groups[i].0
  {
    if groups == [] then [] else [groups[0].0] + Keys(groups[1..])
  }

  /** `layout.groupOrder || Object.keys(groupData.groups)`: a list given in
      the layout is used as it is, even an empty one (an array is never
      falsy); otherwise every group, in key order. */
  function GroupOrder(data: GroupData): (order: seq<string>)
    ensures data.layout.Some? && data.layout.value.groupOrder.Some? ==> order == data.layout.value.groupOrder.value
    ensures !(data.layout.Some? && data.layout.value.groupOrder.Some?) ==>
      |order| == |data.groups| && forall i :: 0 <= i < |order| ==> order[i] == data.groups[i].0
  {
    if data.layout.Some? && data.layout.value.groupOrder.Some? then data.layout.value.groupOrder.value
    else Keys(data.groups)
  }

  /** Position i holds the first group named `name`. */
  predicate FirstNamed(groups: seq<(string, Group)>, name: string, i: int) {
    0 <= i < |groups| && groups[i].0 == name && forall j :: 0 <= j < i ==> groups[j].0 != name
  }

  /** `groupData.groups[name].order`, when the group exists and has one: the
      `order` of the first group of that name (the keys of an object are
      distinct, so when they are it is the only one). */
  function OrderOf(groups: seq<(string, Group)>, name: string): (r: Option<seq<string>>)
    ensures r.Some? ==> exists i :: 0 <= i < |groups| && groups[i].0 == name && groups[i].1.order == r
    ensures (forall i :: 0 <= i < |groups| ==> groups[i].0 != name) ==> r.None?
    ensures forall i {:trigger FirstNamed(groups, name, i)} :: FirstNamed(groups, name, i) ==> r == groups[i].1.order
  {
    if groups == [] then None
    else if groups[0].0 == name then groups[0].1.order
    else
      assert forall i :: FirstNamed(groups, name, i) ==> FirstNamed(groups[1..], name, i - 1);
      OrderOf(groups[1..], name)
  }

  /** The map after `set(names[j], {groupIndex: gi, nodeIndex: j, groupName: g})`
      for every j in turn. */
  function AddNames(m: map<string, Entry>, names: seq<string>, gi: nat, g: string): map<string, Entry>
    decreases |names|
  {
    if names == [] then m
    else AddNames(m, names[..|names| - 1], gi, g)[names[|names| - 1] := Entry(gi, |names| - 1, g)]
  }

  /** `nodeOrderMap` after the groups of `order` have been visited in turn;
      a group that is missing or has no `order` adds nothing but still uses
      up its index. */
  function Index(order: seq<string>, groups: seq<(string, Group)>): map<string, Entry>
    decreases |order|
  {
    if order == [] then map[]
    else
      var gi := |order| - 1;
      var m := Index(order[..gi], groups);
      var names := OrderOf(groups, order[gi]);
      if names.Some? then AddNames(m, names.value, gi, order[gi]) else m
  }

  /** `nodeOrderMap` for the given `groupData`. */
  function NodeOrderMap(data: GroupData): map<string, Entry> {
    Index(GroupOrder(data), data.groups)
  }

  /** The index build: a loop over the groups and, inside it, a loop over
      each group's names. */
  method BuildIndex(groupOrder: seq<string>, groups: seq<(string, Group)>) returns (index: map<string, Entry>)
    ensures index == Index(groupOrder, groups)
  {
    index := map[];
    var gi := 0;
    while gi < |groupOrder|
      invariant gi <= |groupOrder|
      invariant index == Index(groupOrder[..gi], groups)
    {
      var groupName := groupOrder[gi];
      var order := OrderOf(groups, groupName);
      assert groupOrder[..gi + 1][..gi] == groupOrder[..gi];
      if order.Some? {
        var names := order.value;
        ghost var before := index;
        var ni := 0;
        while ni < |names|
          invariant ni <= |names|
          invariant index == AddNames(before, names[..ni], gi, groupName)
        {
          assert names[..ni + 1][..ni] == names[..ni];
          index := index[names[ni] := Entry(gi, ni, groupName)];
          ni := ni + 1;
        }
        assert names[..ni] == names;
      }
      gi := gi + 1;
    }
    assert groupOrder[..gi] == groupOrder;
  }

  /** `name` is listed at position ni of the group at position gi of `order`. */
  predicate Listed(order: seq<string>, groups: seq<(string, Group)>, name: string, gi: nat, ni: nat) {
    gi < |order| && OrderOf(groups, order[gi]).Some? &&
    ni < |OrderOf(groups, order[gi]).value| && OrderOf(groups, order[gi]).value[ni] == name
  }

  /** (gi, ni) comes no later than (gj, nj) in the visiting order. */
  predicate NoLater(gi: nat, ni: nat, gj: nat, nj: nat) {
    gi < gj || (gi == gj && ni <= nj)
  }

  /** Adding a list of names: each name of the list gets the entry of its
      last position, every other key keeps its entry. */
  lemma {:induction false} AddNamesEntries(m: map<string, Entry>, names: seq<string>, gi: nat, g: string, x: string)
    ensures x in AddNames(m, names, gi, g) <==> x in m || x in names
    ensures x in names ==>
      var e := AddNames(m, names, gi, g)[x];
      e.groupIndex == gi && e.groupName == g && e.nodeIndex < |names| && names[e.nodeIndex] == x &&
      forall j :: e.nodeIndex < j < |names| ==> names[j] != x
    ensures x !in names && x in m ==> AddNames(m, names, gi, g)[x] == m[x]
    decreases |names|
  {
    if names != [] {
      var init := names[..|names| - 1];
      AddNamesEntries(m, init, gi, g, x);
      assert names == init + [names[|names| - 1]];
      assert x in names <==> x in init || x == names[|names| - 1];
    }
  }

  /** Every name listed by a visited group has an entry, and nothing else
      has one. The entry of a name is its last listing: its group's
      position in `order`, its position in that group's list, and that
      group's name. */
  lemma {:induction false} IndexEntries(order: seq<string>, groups: seq<(string, Group)>, x: string)
    ensures x in Index(order, groups) <==> exists gi, ni :: Listed(order, groups, x, gi, ni)
    ensures x in Index(order, groups) ==>
      var e := Index(order, groups)[x];
      Listed(order, groups, x, e.groupIndex, e.nodeIndex) && e.groupName == order[e.groupIndex] &&
      forall gi, ni :: Listed(order, groups, x, gi, ni) ==> NoLater(gi, ni, e.groupIndex, e.nodeIndex)
    decreases |order|
  {
    if order != [] {
      var gi := |order| - 1;
      var init := order[..gi];
      var m := Index(init, groups);
      IndexEntries(init, groups, x);
      assert forall g: nat, n: nat :: g < gi ==> (Listed(order, groups, x, g, n) <==> Listed(init, groups, x, g, n)) by {
        assert forall g :: 0 <= g < gi ==> order[g] == init[g];
      }
      var names := OrderOf(groups, order[gi]);
      if names.Some? {
        AddNamesEntries(m, names.value, gi, order[gi], x);
        if x in names.value {
          var e := Index(order, groups)[x];
          assert Listed(order, groups, x, e.groupIndex, e.nodeIndex);
        } else {
          assert forall n: nat :: !Listed(order, groups, x, gi, n);
          if x in m {
            var e := m[x];
            assert Listed(init, groups, x, e.groupIndex, e.nodeIndex);
          }
        }
      } else {
        assert forall n: nat :: !Listed(order, groups, x, gi, n);
        if x in m {
          var e := m[x];
          assert Listed(init, groups, x, e.groupIndex, e.nodeIndex);
        }
      }
    }
  }
}
