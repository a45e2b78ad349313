/** getLeafNodes, getPrimaryFamily and reorganizeTree: every child list of a
    parsed tree is sorted, bottom up, by the position in the group order of
    the family most of the child's leaves belong to. */
module Reorganizer {
  import opened JsText
  import opened NewickParser
  import opened GroupIndex
  import opened StableSort

  /** The lists of `ss`, one after the other. */
  function Flat(ss: seq<seq<Tree>>): seq<Tree>
    decreases |ss|
  {
    if ss == [] then [] else Flat(ss[..|ss| - 1]) + ss[|ss| - 1]
  }

  /** getLeafNodes: a node without `children` is its own leaf; otherwise the
      leaves of its children, one child after the other (a `flatMap`). */
  function Leaves(t: Tree): seq<Tree>
    decreases t
  {
    match t.children
    case Absent => [t]
    case Present(kids) => Flat(seq(|kids|, i requires 0 <= i < |kids| => Leaves(kids[i])))
  }

  /** Every node of `t`, parents before their children, left to right. */
  function Nodes(t: Tree): seq<Tree>
    decreases t
  {
    match t.children
    case Absent => [t]
    case Present(kids) => [t] + Flat(seq(|kids|, i requires 0 <= i < |kids| => Nodes(kids[i])))
  }

  /** The nodes of `s` that have no `children`, in their order. */
  function Childless(s: seq<Tree>): seq<Tree>
    decreases |s|
  {
    if s == [] then []
    else Childless(s[..|s| - 1]) + (if s[|s| - 1].children.Absent? then [s[|s| - 1]] else [])
  }

  lemma {:induction false} ChildlessAppend(a: seq<Tree>, b: seq<Tree>)
    ensures Childless(a + b) == Childless(a) + Childless(b)
    decreases |b|
  {
    if b != [] {
      var init := b[..|b| - 1];
      ChildlessAppend(a, init);
      assert (a + b)[..|a + b| - 1] == a + init;
      assert (a + b)[|a + b| - 1] == b[|b| - 1];
    } else {
      assert a + b == a;
    }
  }

  lemma {:induction false} ChildlessFlat(ss: seq<seq<Tree>>)
    ensures Childless(Flat(ss)) == Flat(seq(|ss|, i requires 0 <= i < |ss| => Childless(ss[i])))
    decreases |ss|
  {
    if ss != [] {
      var init := ss[..|ss| - 1];
      ChildlessFlat(init);
      ChildlessAppend(Flat(init), ss[|ss| - 1]);
      var cs := seq(|ss|, i requires 0 <= i < |ss| => Childless(ss[i]));
      assert cs[..|cs| - 1] == seq(|init|, i requires 0 <= i < |init| => Childless(init[i]));
    }
  }

  /** getLeafNodes returns exactly the nodes of the tree that have no
      `children`, left to right. */
  lemma {:induction false} LeavesAreChildlessNodes(t: Tree)
    ensures Leaves(t) == Childless(Nodes(t))
    decreases t
  {
    match t.children
    case Absent =>
      assert Childless([t]) == Childless([t][..0]) + [t];
    case Present(kids) =>
      var ns := seq(|kids|, i requires 0 <= i < |kids| => Nodes(kids[i]));
      ChildlessAppend([t], Flat(ns));
      assert Childless([t]) == Childless([t][..0]) + [];
      ChildlessFlat(ns);
      forall i | 0 <= i < |kids|
        ensures Childless(ns[i]) == Leaves(kids[i])
      {
        assert kids[i] in kids;
        LeavesAreChildlessNodes(kids[i]);
      }
      assert seq(|ns|, i requires 0 <= i < |ns| => Childless(ns[i]))
          == seq(|kids|, i requires 0 <= i < |kids| => Leaves(kids[i]));
  }

  /** The families of the indexed leaves, in leaf order: a leaf counts when
      its name has an entry in `nodeOrderMap`. */
  function Families(leaves: seq<Tree>, index: map<string, Entry>): seq<string>
    decreases |leaves|
  {
    if leaves == [] then []
    else
      var leaf := leaves[|leaves| - 1];
      Families(leaves[..|leaves| - 1], index) +
        (if leaf.name.Some? && leaf.name.value in index then [index[leaf.name.value].groupName] else [])
  }

  /** `familyCounts` after counting `fams` in turn. */
  function Tally(fams: seq<string>): map<string, nat>
    decreases |fams|
  {
    if fams == [] then map[]
    else
      var m := Tally(fams[..|fams| - 1]);
      var f := fams[|fams| - 1];
      m[f := (if f in m then m[f] else 0) + 1]
  }

  /** The keys of `familyCounts` in insertion order: each family where it
      first occurs. */
  function Distinct(fams: seq<string>): seq<string>
    decreases |fams|
  {
    if fams == [] then []
    else
      var init := fams[..|fams| - 1];
      Distinct(init) + (if fams[|fams| - 1] in init then [] else [fams[|fams| - 1]])
  }

  /** The count of a family, as the sort reads it from an entry. */
  function CountIn(counts: map<string, nat>): string -> int {
    f => if f in counts then counts[f] else 0
  }

  /** getPrimaryFamily: the entries of `familyCounts` sorted stably by
      descending count; the family of the first, unless there is none or it
      is the empty string (`|| null`). */
  function PrimaryFamily(leaves: seq<Tree>, index: map<string, Entry>): Option<string> {
    var fams := Families(leaves, index);
    var ranked := SortDesc(Distinct(fams), CountIn(Tally(fams)));
    if ranked == [] || ranked[0] == "" then None else Some(ranked[0])
  }

  /** The tally holds every counted family, with its number of occurrences. */
  lemma {:induction false} TallyCounts(fams: seq<string>)
    ensures forall f :: f in Tally(fams) <==> f in fams
    ensures forall f :: f in Tally(fams) ==> Tally(fams)[f] == multiset(fams)[f]
    decreases |fams|
  {
    if fams != [] {
      var init := fams[..|fams| - 1];
      TallyCounts(init);
      assert fams == init + [fams[|fams| - 1]];
    }
  }

  /** Position of the first occurrence of x in s. */
  function FirstIndex(s: seq<string>, x: string): (k: nat)
    requires x in s
    ensures k < |s| && s[k] == x && forall j :: 0 <= j < k ==> s[j] != x
  {
    if s[0] == x then 0 else 1 + FirstIndex(s[1..], x)
  }

  lemma FirstIndexAt(s: seq<string>, x: string, k: nat)
    requires k < |s| && s[k] == x && forall j :: 0 <= j < k ==> s[j] != x
    ensures FirstIndex(s, x) == k
  {
  }

  /** `f` is counted in `fams` at least as often as any family, and more
      often than every family met before its own first occurrence. */
  predicate Dominant(fams: seq<string>, f: string) {
    f in fams &&
    (forall g :: g in fams ==> multiset(fams)[g] <= multiset(fams)[f]) &&
    forall j :: 0 <= j < FirstIndex(fams, f) ==> multiset(fams)[fams[j]] < multiset(fams)[f]
  }

  /** At most one family dominates. */
  lemma DominantUnique(fams: seq<string>, f: string, g: string)
    requires Dominant(fams, f) && Dominant(fams, g)
    ensures f == g
  {
    var i, j := FirstIndex(fams, f), FirstIndex(fams, g);
    assert i == j;
  }

  /** The keys of the map are the counted families, each once, in the order
      of their first occurrences. */
  lemma {:induction false} DistinctOrder(fams: seq<string>)
    ensures forall f :: f in Distinct(fams) <==> f in fams
    ensures forall i, j :: 0 <= i < j < |Distinct(fams)| ==>
      Distinct(fams)[i] in fams && Distinct(fams)[j] in fams &&
      FirstIndex(fams, Distinct(fams)[i]) < FirstIndex(fams, Distinct(fams)[j])
    decreases |fams|
  {
    if fams != [] {
      var init := fams[..|fams| - 1];
      var last := fams[|fams| - 1];
      DistinctOrder(init);
      assert fams == init + [last];
      forall x | x in init
        ensures FirstIndex(fams, x) == FirstIndex(init, x)
      {
        FirstIndexAt(fams, x, FirstIndex(init, x));
      }
      if last !in init {
        FirstIndexAt(fams, last, |init|);
      }
    }
  }

  /** The sort key reads each family's number of occurrences. */
  lemma CountInTally(fams: seq<string>)
    ensures forall g :: g in fams ==> CountIn(Tally(fams))(g) == multiset(fams)[g]
  {
    TallyCounts(fams);
  }

  /** Keys `d` that are the counted families, ordered by first occurrence,
      sorted by a key that counts occurrences: the first has the highest
      count. */
  lemma SortedFirstMost(fams: seq<string>, d: seq<string>, key: string -> int)
    requires fams != []
    requires forall f :: f in d <==> f in fams
    requires forall g :: g in fams ==> key(g) == multiset(fams)[g]
    ensures SortDesc(d, key) != [] && SortDesc(d, key)[0] in fams
    ensures forall g :: g in fams ==> multiset(fams)[g] <= multiset(fams)[SortDesc(d, key)[0]]
  {
    var r := SortDesc(d, key);
    SortDescElements(d, key);
    SortDescSorted(d, key);
    assert r != [] by {
      assert fams[0] in d;
      assert fams[0] in multiset(r);
    }
    assert r[0] in multiset(d);
    forall g | g in fams
      ensures multiset(fams)[g] <= multiset(fams)[r[0]]
    {
      assert g in multiset(r);
      var j :| 0 <= j < |r| && r[j] == g;
      assert j == 0 || key(r[0]) >= key(r[j]);
    }
  }

  /** In the same setting, a family with the same count as the first
      occurs first no earlier than it: the sort is stable and `d` keeps the
      order of first occurrences. */
  lemma SortedFirstTie(fams: seq<string>, d: seq<string>, key: string -> int, g: string)
    requires forall f :: f in d <==> f in fams
    requires forall i, j :: 0 <= i < j < |d| ==> d[i] in fams && d[j] in fams && FirstIndex(fams, d[i]) < FirstIndex(fams, d[j])
    requires forall g :: g in fams ==> key(g) == multiset(fams)[g]
    requires SortDesc(d, key) != [] && SortDesc(d, key)[0] in fams
    requires g in fams && multiset(fams)[g] == multiset(fams)[SortDesc(d, key)[0]]
    ensures FirstIndex(fams, SortDesc(d, key)[0]) <= FirstIndex(fams, g)
  {
    var w := SortDesc(d, key)[0];
    assert g in d;
    var pg :| 0 <= pg < |d| && d[pg] == g;
    var m := SortDescFirst(d, key, pg);
    assert m < pg ==> FirstIndex(fams, d[m]) < FirstIndex(fams, d[pg]);
  }

  /** The first entry after the sort dominates. */
  lemma RankedFirstDominant(fams: seq<string>)
    requires fams != []
    ensures SortDesc(Distinct(fams), CountIn(Tally(fams))) != []
    ensures Dominant(fams, SortDesc(Distinct(fams), CountIn(Tally(fams)))[0])
  {
    var d := Distinct(fams);
    var key := CountIn(Tally(fams));
    DistinctOrder(fams);
    CountInTally(fams);
    SortedFirstMost(fams, d, key);
    var w := SortDesc(d, key)[0];
    forall j | 0 <= j < FirstIndex(fams, w)
      ensures multiset(fams)[fams[j]] < multiset(fams)[w]
    {
      if multiset(fams)[fams[j]] == multiset(fams)[w] {
        SortedFirstTie(fams, d, key, fams[j]);
      }
    }
  }

  /** getPrimaryFamily returns the dominant family: the one counted most
      often, ties going to the one met first. It returns null when no leaf
      is indexed or when the dominant family is the empty string. */
  lemma PrimaryFamilyIsDominant(leaves: seq<Tree>, index: map<string, Entry>)
    ensures PrimaryFamily(leaves, index).Some? <==>
      Families(leaves, index) != [] && !Dominant(Families(leaves, index), "")
    ensures PrimaryFamily(leaves, index).Some? ==>
      Dominant(Families(leaves, index), PrimaryFamily(leaves, index).value)
  {
    var fams := Families(leaves, index);
    if fams != [] {
      RankedFirstDominant(fams);
      var w := SortDesc(Distinct(fams), CountIn(Tally(fams)))[0];
      if Dominant(fams, "") {
        DominantUnique(fams, w, "");
      }
    } else {
      SortDescElements(Distinct(fams), CountIn(Tally(fams)));
    }
  }

  /** When every indexed leaf belongs to the same non-empty family, that
      family is the primary one. */
  lemma PrimaryFamilyUnanimous(leaves: seq<Tree>, index: map<string, Entry>, f: string)
    requires Families(leaves, index) != [] && f != ""
    requires forall g :: g in Families(leaves, index) ==> g == f
    ensures PrimaryFamily(leaves, index) == Some(f)
  {
    var fams := Families(leaves, index);
    assert fams[0] in fams;
    assert Dominant(fams, f) by {
      forall g | g in fams
        ensures multiset(fams)[g] <= multiset(fams)[f]
      {
        assert g == f;
      }
      FirstIndexAt(fams, f, 0);
    }
    PrimaryFamilyIsDominant(leaves, index);
    if Dominant(fams, "") {
      DominantUnique(fams, f, "");
    }
    DominantUnique(fams, f, PrimaryFamily(leaves, index).value);
  }

  /** Counting one more family. */
  lemma CountOneMore(fams: seq<string>, f: string)
    ensures Tally(fams + [f]) == Tally(fams)[f := (if f in Tally(fams) then Tally(fams)[f] else 0) + 1]
    ensures Distinct(fams + [f]) == Distinct(fams) + (if f in Tally(fams) then [] else [f])
  {
    TallyCounts(fams);
    assert (fams + [f])[..|fams|] == fams;
  }

  /** The families of one more leaf. */
  lemma FamiliesOneMore(leaves: seq<Tree>, i: nat, index: map<string, Entry>)
    requires i < |leaves|
    ensures Families(leaves[..i + 1], index) == Families(leaves[..i], index) +
      (if leaves[i].name.Some? && leaves[i].name.value in index then [index[leaves[i].name.value].groupName] else [])
  {
    assert leaves[..i + 1][..i] == leaves[..i];
  }

  /** One leaf more: an indexed leaf adds one to its family's count, and
      appends the family to the keys when it is new. */
  lemma CountStep(leaves: seq<Tree>, i: nat, index: map<string, Entry>, counts: map<string, nat>, keys: seq<string>)
    requires i < |leaves|
    requires counts == Tally(Families(leaves[..i], index)) && keys == Distinct(Families(leaves[..i], index))
    ensures var leaf := leaves[i];
      if leaf.name.Some? && leaf.name.value in index then
        var family := index[leaf.name.value].groupName;
        counts[family := (if family in counts then counts[family] else 0) + 1] == Tally(Families(leaves[..i + 1], index)) &&
        keys + (if family in counts then [] else [family]) == Distinct(Families(leaves[..i + 1], index))
      else
        counts == Tally(Families(leaves[..i + 1], index)) && keys == Distinct(Families(leaves[..i + 1], index))
  {
    FamiliesOneMore(leaves, i, index);
    var leaf := leaves[i];
    if leaf.name.Some? && leaf.name.value in index {
      CountOneMore(Families(leaves[..i], index), index[leaf.name.value].groupName);
    } else {
      assert Families(leaves[..i + 1], index) == Families(leaves[..i], index);
    }
  }

  /** The loop of getPrimaryFamily that fills `familyCounts`; `keys` holds
      the keys of the map in insertion order. */
  method CountFamilies(leaves: seq<Tree>, index: map<string, Entry>) returns (counts: map<string, nat>, keys: seq<string>)
    ensures counts == Tally(Families(leaves, index))
    ensures keys == Distinct(Families(leaves, index))
  {
    counts := map[];
    keys := [];
    var i := 0;
    while i < |leaves|
      invariant i <= |leaves|
      invariant counts == Tally(Families(leaves[..i], index))
      invariant keys == Distinct(Families(leaves[..i], index))
    {
      CountStep(leaves, i, index, counts, keys);
      var leaf := leaves[i];
      if leaf.name.Some? && leaf.name.value in index {
        var family := index[leaf.name.value].groupName;
        if family !in counts {
          keys := keys + [family];
        }
        counts := counts[family := (if family in counts then counts[family] else 0) + 1];
      }
      i := i + 1;
    }
    assert leaves[..i] == leaves;
  }

  /** getPrimaryFamily itself: the count, then the sort of the entries of
      the map by descending count. */
  method GetPrimaryFamily(leaves: seq<Tree>, index: map<string, Entry>) returns (r: Option<string>)
    ensures r == PrimaryFamily(leaves, index)
  {
    var counts, keys := CountFamilies(leaves, index);
    var entries := new string[|keys|](j => if 0 <= j < |keys| then keys[j] else "");
    assert entries[..] == keys;
    SortInPlace(entries, CountIn(counts));
    if entries.Length == 0 || entries[0] == "" {
      r := None;
    } else {
      r := Some(entries[0]);
    }
  }

  /** `groupOrder.indexOf(family)`: the first position of the family in the
      order, or -1 for null and for a family the order does not list. */
  function IndexIn(order: seq<string>, family: Option<string>): (k: int)
    ensures -1 <= k < |order|
    ensures k == -1 <==> family.None? || family.value !in order
    ensures k >= 0 ==> order[k] == family.value && forall j :: 0 <= j < k ==> order[j] != family.value
  {
    if family.None? || family.value !in order then -1 else FirstIndex(order, family.value)
  }

  /** The position in the group order of a subtree's primary family. */
  function Rank(order: seq<string>, index: map<string, Entry>, t: Tree): int {
    IndexIn(order, PrimaryFamily(Leaves(t), index))
  }

  function RankKey(order: seq<string>, index: map<string, Entry>): Tree -> int {
    t => Rank(order, index, t)
  }

  /** The comparator of the sort in reorganizeTree. Whatever the families,
      it is the rank of the second subtree minus the rank of the first: the
      comparator of a sort into descending rank. */
  function Compare(order: seq<string>, index: map<string, Entry>, a: Tree, b: Tree): (c: int)
    ensures c == RankKey(order, index)(b) - RankKey(order, index)(a)
  {
    var aFamily := PrimaryFamily(Leaves(a), index);
    var bFamily := PrimaryFamily(Leaves(b), index);
    if aFamily != bFamily then
      var aIndex := IndexIn(order, aFamily);
      var bIndex := IndexIn(order, bFamily);
      -(aIndex - bIndex)
    else 0
  }

  /** reorganizeTree: a node without `children` is returned as it is;
      otherwise its children are reorganized and then sorted by the
      comparator, which is a stable sort into descending rank. */
  function Reorganize(order: seq<string>, index: map<string, Entry>, t: Tree): Tree
    decreases t, 1
  {
    match t.children
    case Absent => t
    case Present(_) => t.(children := Present(SortDesc(Reorganized(order, index, t), RankKey(order, index))))
  }

  /** `node.children.map(reorganizeTree)`. */
  function Reorganized(order: seq<string>, index: map<string, Entry>, t: Tree): (m: seq<Tree>)
    requires t.children.Present?
    ensures |m| == |t.children.items|
    decreases t, 0
  {
    var kids := t.children.items;
    seq(|kids|, i requires 0 <= i < |kids| => Reorganize(order, index, kids[i]))
  }

  /** reorganizeTree itself, on an array of the children: each child in turn
      is reorganized, then the array is sorted in place. */
  method ReorganizeTree(order: seq<string>, index: map<string, Entry>, t: Tree) returns (r: Tree)
    ensures r == Reorganize(order, index, t)
    decreases t
  {
    if t.children.Absent? {
      return t;
    }
    var kids := t.children.items;
    var a := new Tree[|kids|](j => Empty);
    var i := 0;
    while i < |kids|
      invariant 0 <= i <= |kids|
      invariant forall j :: 0 <= j < i ==> a[j] == Reorganize(order, index, kids[j])
    {
      var c := ReorganizeTree(order, index, kids[i]);
      a[i] := c;
      i := i + 1;
    }
    assert a[..] == Reorganized(order, index, t);
    SortInPlace(a, RankKey(order, index));
    r := t.(children := Present(a[..]));
  }

  /** A node without `children` is returned unchanged. A node with children
      keeps its name and confidence, and its new child list is its
      reorganized children sorted into descending rank: the same children,
      and those of equal rank in their previous order. */
  lemma ReorganizeSorts(order: seq<string>, index: map<string, Entry>, t: Tree)
    ensures t.children.Absent? ==> Reorganize(order, index, t) == t
    ensures t.children.Present? ==>
      var r := Reorganize(order, index, t);
      var m := Reorganized(order, index, t);
      var key := RankKey(order, index);
      r.name == t.name && r.confidence == t.confidence && r.children.Present? &&
      SortedDesc(r.children.items, key) &&
      multiset(r.children.items) == multiset(m) &&
      forall k :: WithKey(r.children.items, key, k) == WithKey(m, key, k)
  {
    if t.children.Present? {
      var m := Reorganized(order, index, t);
      var key := RankKey(order, index);
      SortDescSorted(m, key);
      SortDescElements(m, key);
      forall k ensures WithKey(SortDesc(m, key), key, k) == WithKey(m, key, k) {
        SortDescStable(m, key, k);
      }
    }
  }

  lemma {:induction false} FlatLeaves(ts: seq<Tree>)
    ensures Flat(seq(|ts|, i requires 0 <= i < |ts| => Leaves(ts[i]))) == FlatMap(ts, Leaves)
    decreases |ts|
  {
    if ts != [] {
      var init := ts[..|ts| - 1];
      FlatLeaves(init);
      var ls := seq(|ts|, i requires 0 <= i < |ts| => Leaves(ts[i]));
      assert ls[..|ls| - 1] == seq(|init|, i requires 0 <= i < |init| => Leaves(init[i]));
    }
  }

  /** reorganizeTree keeps the leaves: the same nodes, as often, in another
      order. */
  lemma {:induction false} ReorganizeKeepsLeaves(order: seq<string>, index: map<string, Entry>, t: Tree)
    ensures multiset(Leaves(Reorganize(order, index, t))) == multiset(Leaves(t))
    decreases t
  {
    if t.children.Present? {
      var kids := t.children.items;
      var m := Reorganized(order, index, t);
      var cs := SortDesc(m, RankKey(order, index));
      var r := Reorganize(order, index, t);
      assert r.children.items == cs;
      FlatLeaves(cs);
      FlatLeaves(kids);
      SortDescFlatMap(m, RankKey(order, index), Leaves);
      forall i | 0 <= i < |kids|
        ensures multiset(Leaves(m[i])) == multiset(Leaves(kids[i]))
      {
        ReorganizeKeepsLeaves(order, index, kids[i]);
      }
      FlatMapAlike(m, kids, Leaves);
    }
  }

  /** Every reorganized child is left as it is by a second pass. */
  lemma {:induction false} ReorganizedFixed(order: seq<string>, index: map<string, Entry>, t: Tree)
    requires t.children.Present?
    ensures forall x :: x in Reorganized(order, index, t) ==> Reorganize(order, index, x) == x
    decreases t, 0
  {
    var kids := t.children.items;
    var m := Reorganized(order, index, t);
    forall x | x in m
      ensures Reorganize(order, index, x) == x
    {
      var j :| 0 <= j < |m| && m[j] == x;
      ReorganizeIdempotent(order, index, kids[j]);
    }
  }

  lemma SameMembers<T>(a: seq<T>, b: seq<T>)
    requires multiset(a) == multiset(b)
    ensures forall i :: 0 <= i < |a| ==> a[i] in b
  {
    forall i | 0 <= i < |a|
      ensures a[i] in b
    {
      assert a[i] in multiset(b);
    }
  }

  /** Reorganizing twice is reorganizing once. */
  lemma {:induction false} ReorganizeIdempotent(order: seq<string>, index: map<string, Entry>, t: Tree)
    ensures Reorganize(order, index, Reorganize(order, index, t)) == Reorganize(order, index, t)
    decreases t, 1
  {
    if t.children.Present? {
      var key := RankKey(order, index);
      var m := Reorganized(order, index, t);
      var cs := SortDesc(m, key);
      var r := Reorganize(order, index, t);
      ReorganizedFixed(order, index, t);
      SortDescElements(m, key);
      SameMembers(cs, m);
      assert r.children.items == cs;
      assert Reorganized(order, index, r) == cs;
      SortDescIdempotent(m, key);
    }
  }

  /** With `nodeOrderMap` built from the group order, every counted family
      is listed in that order. */
  lemma {:induction false} FamiliesListed(leaves: seq<Tree>, order: seq<string>, groups: seq<(string, Group)>)
    ensures forall f :: f in Families(leaves, Index(order, groups)) ==> f in order
    decreases |leaves|
  {
    if leaves != [] {
      var leaf := leaves[|leaves| - 1];
      FamiliesListed(leaves[..|leaves| - 1], order, groups);
      if leaf.name.Some? && leaf.name.value in Index(order, groups) {
        IndexEntries(order, groups, leaf.name.value);
      }
    }
  }

  /** With `nodeOrderMap` built from the group order, a subtree has rank -1
      exactly when it has no primary family; the others have the position
      of their family. */
  lemma RankOfFamily(order: seq<string>, groups: seq<(string, Group)>, t: Tree)
    ensures var family := PrimaryFamily(Leaves(t), Index(order, groups));
      (Rank(order, Index(order, groups), t) == -1 <==> family.None?) &&
      (family.Some? ==> order[Rank(order, Index(order, groups), t)] == family.value)
  {
    var index := Index(order, groups);
    PrimaryFamilyIsDominant(Leaves(t), index);
    FamiliesListed(Leaves(t), order, groups);
  }

  /** After reorganizeTree, the children without a primary family come
      after all the others. */
  lemma NullFamiliesLast(order: seq<string>, groups: seq<(string, Group)>, t: Tree, i: nat, j: nat)
    requires t.children.Present?
    requires i < j < |Reorganize(order, Index(order, groups), t).children.items|
    requires PrimaryFamily(Leaves(Reorganize(order, Index(order, groups), t).children.items[i]), Index(order, groups)).None?
    ensures PrimaryFamily(Leaves(Reorganize(order, Index(order, groups), t).children.items[j]), Index(order, groups)).None?
  {
    var cs := Reorganize(order, Index(order, groups), t).children.items;
    ReorganizeSorts(order, Index(order, groups), t);
    RankOfFamily(order, groups, cs[i]);
    RankOfFamily(order, groups, cs[j]);
    assert RankKey(order, Index(order, groups))(cs[i]) >= RankKey(order, Index(order, groups))(cs[j]);
  }
}
