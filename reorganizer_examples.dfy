/** reorganizeTree on a small tree: with the group order [mammals, birds],
    a bird and a clade of two mammals. The sort puts the larger position in
    the order first, so the bird comes before the mammals. */
module ReorganizerExamples {
  import opened JsText
  import opened NewickParser
  import opened GroupIndex
  import opened StableSort
  import opened Reorganizer

  const Order: seq<string> := ["mammals", "birds"]
  const Groups: seq<(string, Group)> :=
    [("mammals", Group(Some(["Cat", "Dog"]))), ("birds", Group(Some(["Eagle"])))]

  function Named(name: string): Tree {
    Tree(Some(name), Absent, None)
  }

  const Mammals := Tree(None, Present([Named("Cat"), Named("Dog")]), None)

  lemma ExampleIndex()
    ensures Index(Order, Groups) ==
      map["Cat" := Entry(0, 0, "mammals"), "Dog" := Entry(0, 1, "mammals"), "Eagle" := Entry(1, 0, "birds")]
  {
    assert Order[..1] == ["mammals"];
    assert Order[..1][..0] == [];
    assert ["Cat", "Dog"][..1] == ["Cat"];
    assert ["Cat"][..0] == [];
    assert ["Eagle"][..0] == [];
  }

  /** A leaf listed in a group ranks at that group's position. */
  lemma LeafRank(order: seq<string>, index: map<string, Entry>, name: string, family: string, gi: nat)
    requires name in index && index[name].groupName == family
    requires gi < |order| && order[gi] == family && forall j :: 0 <= j < gi ==> order[j] != family
    requires family != ""
    ensures Rank(order, index, Named(name)) == gi
  {
    assert Leaves(Named(name)) == [Named(name)];
    assert [Named(name)][..0] == [];
    assert Families([Named(name)], index) == [family];
    PrimaryFamilyUnanimous([Named(name)], index, family);
    FirstIndexAt(order, family, gi);
  }

  lemma MammalsLeaves()
    ensures Leaves(Mammals) == [Named("Cat"), Named("Dog")]
  {
    var cat, dog := Named("Cat"), Named("Dog");
    FlatLeaves([cat, dog]);
    FlatMapSnoc([cat], dog, Leaves);
    FlatMapSnoc([], cat, Leaves);
    assert [cat, dog] == [cat] + [dog] && [cat] == [] + [cat];
  }

  lemma MammalsRank()
    ensures Rank(Order, Index(Order, Groups), Mammals) == 0
  {
    ExampleIndex();
    MammalsLeaves();
    var index := Index(Order, Groups);
    var leaves := [Named("Cat"), Named("Dog")];
    assert leaves[..1] == [Named("Cat")] && leaves[..1][..0] == [];
    assert Families(leaves, index) == ["mammals", "mammals"];
    PrimaryFamilyUnanimous(leaves, index, "mammals");
    FirstIndexAt(Order, "mammals", 0);
  }

  /** Sorting two subtrees: they swap exactly when the second has the
      larger rank. */
  lemma SortTwo(key: Tree -> int, a: Tree, b: Tree)
    ensures SortDesc([a, b], key) == if key(a) >= key(b) then [a, b] else [b, a]
  {
    assert [a, b][..1] == [a] && [a][..0] == [];
    assert SortDesc([a], key) == Insert([], a, key) == [a];
    assert SortDesc([a, b], key) == Insert([a], b, key);
    if key(a) < key(b) {
      assert Insert([a], b, key) == Insert([], b, key) + [a];
    }
  }

  /** A node with two children, each of which reorganizeTree leaves as it is. */
  lemma ReorganizeTwo(order: seq<string>, index: map<string, Entry>, a: Tree, b: Tree)
    requires Reorganize(order, index, a) == a && Reorganize(order, index, b) == b
    ensures Reorganize(order, index, Tree(None, Present([a, b]), None)) ==
      Tree(None, Present(if Rank(order, index, a) >= Rank(order, index, b) then [a, b] else [b, a]), None)
  {
    var t := Tree(None, Present([a, b]), None);
    assert Reorganized(order, index, t) == [a, b];
    SortTwo(RankKey(order, index), a, b);
  }

  /** The two mammals have the same rank and keep their order. */
  lemma MammalsUnchanged()
    ensures Reorganize(Order, Index(Order, Groups), Mammals) == Mammals
  {
    ExampleIndex();
    LeafRank(Order, Index(Order, Groups), "Cat", "mammals", 0);
    LeafRank(Order, Index(Order, Groups), "Dog", "mammals", 0);
    ReorganizeTwo(Order, Index(Order, Groups), Named("Cat"), Named("Dog"));
  }

  /** (Eagle,(Cat,Dog)) is left as it is: the bird's family comes later in
      the order than the mammals', and the later family goes first. */
  lemma BirdStaysFirst()
    ensures Reorganize(Order, Index(Order, Groups), Tree(None, Present([Named("Eagle"), Mammals]), None))
         == Tree(None, Present([Named("Eagle"), Mammals]), None)
  {
    ExampleIndex();
    LeafRank(Order, Index(Order, Groups), "Eagle", "birds", 1);
    MammalsRank();
    MammalsUnchanged();
    ReorganizeTwo(Order, Index(Order, Groups), Named("Eagle"), Mammals);
  }

  /** ((Cat,Dog),Eagle) becomes (Eagle,(Cat,Dog)). */
  lemma BirdMovesFirst()
    ensures Reorganize(Order, Index(Order, Groups), Tree(None, Present([Mammals, Named("Eagle")]), None))
         == Tree(None, Present([Named("Eagle"), Mammals]), None)
  {
    ExampleIndex();
    LeafRank(Order, Index(Order, Groups), "Eagle", "birds", 1);
    MammalsRank();
    MammalsUnchanged();
    ReorganizeTwo(Order, Index(Order, Groups), Mammals, Named("Eagle"));
  }
}
