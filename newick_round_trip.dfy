/** Newick text written out from a tree description, and what parseNewick
    makes of it. A leaf is a label with an optional branch length; a clade is
    a bracketed, comma-separated list of subtrees followed by a label and an
    optional branch length. parseNewick drops every branch length, names
    each node after its label, and reads the label of a clade as its
    confidence when the label is numeric. */
module NewickRoundTrip {
  import opened JsText
  import opened Tokenizer
  import opened NewickParser

  datatype Newick =
    | Leaf(tag: string, branch: Option<string>)
    | Clade(kids: seq<Newick>, tag: string, branch: Option<string>)

  /** Labels and lengths are texts without spaces at their ends, and every
      clade has a subtree. */
  predicate WellFormed(n: Newick) {
    Clean(n.tag) && (n.branch.Some? ==> Clean(n.branch.value)) &&
    (n.Clade? ==> |n.kids| > 0 && forall k :: k in n.kids ==> WellFormed(k))
  }

  function LengthTokens(len: Option<string>): seq<string> {
    if len.Some? then [":", len.value] else []
  }

  /** The tokens of `n`, as the split produces them from its text: a clade
      starts with the empty text before its `(`. */
  function Emit(n: Newick): seq<string>
    decreases n, 1, 0
  {
    match n
    case Leaf(l, len) => [l] + LengthTokens(len)
    case Clade(kids, l, len) =>
      ["", "("] + (if kids == [] then [] else EmitKids(n, 0)) + [")", l] + LengthTokens(len)
  }

  /** The tokens of the subtrees m.. of clade `n`, separated by commas. */
  function EmitKids(n: Newick, m: nat): seq<string>
    requires n.Clade? && m < |n.kids|
    decreases n, 0, |n.kids| - m
  {
    Emit(n.kids[m]) + (if m + 1 == |n.kids| then [] else [","] + EmitKids(n, m + 1))
  }

  /** The text of `n`. */
  function Text(n: Newick): string {
    Concat(Emit(n))
  }

  /** The node parseNewick builds for `n`. */
  function ToTree(num: string -> bool, n: Newick): Tree
    decreases n
  {
    match n
    case Leaf(l, _) => Tree(Some(l), Absent, None)
    case Clade(kids, l, _) =>
      Tree(Some(l), Present(seq(|kids|, i requires 0 <= i < |kids| => ToTree(num, kids[i]))),
           if num(l) then Some(l) else None)
  }

  lemma LengthTokensAlternate(l: string, len: Option<string>)
    requires Clean(l) && (len.Some? ==> Clean(len.value))
    ensures Alternating([l] + LengthTokens(len)) && CleanTexts([l] + LengthTokens(len))
  {
    if len.Some? {
      assert [l] + LengthTokens(len) == [l] + [[':']] + [len.value];
      JoinAlternating([l], ':', [len.value]);
    } else {
      assert [l] + LengthTokens(len) == [l];
    }
  }

  /** The tokens of a well-formed tree alternate between clean texts and
      delimiters, as the split's output does. */
  lemma {:induction false} EmitAlternates(n: Newick)
    requires WellFormed(n)
    ensures Alternating(Emit(n)) && CleanTexts(Emit(n))
    decreases n, 1, 0
  {
    LengthTokensAlternate(n.tag, n.branch);
    if n.Clade? {
      var k := EmitKids(n, 0);
      EmitKidsAlternate(n, 0);
      JoinAlternating([""], '(', k);
      var tail := [n.tag] + LengthTokens(n.branch);
      JoinAlternating([""] + [['(']] + k, ')', tail);
      assert Emit(n) == [""] + [['(']] + k + [[')']] + tail;
    }
  }

  lemma {:induction false} EmitKidsAlternate(n: Newick, m: nat)
    requires WellFormed(n) && n.Clade? && m < |n.kids|
    ensures Alternating(EmitKids(n, m)) && CleanTexts(EmitKids(n, m))
    decreases n, 0, |n.kids| - m
  {
    assert n.kids[m] in n.kids;
    EmitAlternates(n.kids[m]);
    if m + 1 < |n.kids| {
      EmitKidsAlternate(n, m + 1);
      JoinAlternating(Emit(n.kids[m]), ',', EmitKids(n, m + 1));
      Reassoc(Emit(n.kids[m]), [[',']], EmitKids(n, m + 1));
    } else {
      assert EmitKids(n, m) == Emit(n.kids[m]);
    }
  }

  /** The tokens from position p on start with `e`. */
  predicate At(toks: seq<string>, p: nat, e: seq<string>) {
    p + |e| <= |toks| && forall q :: 0 <= q < |e| ==> toks[p + q] == e[q]
  }

  lemma AtSplit(toks: seq<string>, p: nat, a: seq<string>, b: seq<string>)
    requires At(toks, p, a + b)
    ensures At(toks, p, a) && At(toks, p + |a|, b)
  {
    forall q | 0 <= q < |a| ensures toks[p + q] == a[q] {
      assert (a + b)[q] == a[q];
    }
    forall q | 0 <= q < |b| ensures toks[p + |a| + q] == b[q] {
      assert (a + b)[|a| + q] == b[q];
    }
  }

  lemma AtToken(toks: seq<string>, p: nat, e: seq<string>, q: nat)
    requires At(toks, p, e) && q < |e|
    ensures toks[p + q] == e[q]
  {
  }

  /** The branch length, if any, changes nothing: `:` is skipped and the
      length that follows it is not in a name position. */
  lemma ExecLength(num: string -> bool, toks: seq<string>, q: nat, e: nat, len: Option<string>, st: State)
    requires At(toks, q, LengthTokens(len)) && (len.Some? ==> Clean(len.value))
    requires e == q + |LengthTokens(len)|
    ensures Exec(num, toks, q, e, st) == Done(st)
  {
    if len.Some? {
      AtToken(toks, q, LengthTokens(len), 0);
      AtToken(toks, q, LengthTokens(len), 1);
      TextIsNoDelimiter(len.value);
      ExecOne(num, toks, q, st);
      ExecOne(num, toks, q + 1, st);
      ExecThen(num, toks, q, q + 1, e, st, st, st);
    }
  }

  /** A leaf after `(` or `,` names the fresh cursor. */
  lemma ExecLeaf(num: string -> bool, toks: seq<string>, p: nat, e: nat, n: Newick, anc: Stack)
    requires n.Leaf? && WellFormed(n) && At(toks, p, Emit(n)) && e == p + |Emit(n)|
    requires p > 0 && (Is(toks[p - 1], '(') || Is(toks[p - 1], ','))
    ensures Exec(num, toks, p, e, Open(Empty, anc)) == Done(Open(ToTree(num, n), anc))
  {
    AtSplit(toks, p, [n.tag], LengthTokens(n.branch));
    AtToken(toks, p, [n.tag], 0);
    TextIsNoDelimiter(n.tag);
    ExecOne(num, toks, p, Open(Empty, anc));
    var t := ToTree(num, n);
    ExecLength(num, toks, p + 1, e, n.branch, Open(t, anc));
    ExecThen(num, toks, p, p + 1, e, Open(Empty, anc), Open(t, anc), Open(t, anc));
  }

  /** The `)` and the label that close a clade pop the stack, set the
      confidence when the label is numeric, and name the node. */
  lemma ExecCladeClose(num: string -> bool, toks: seq<string>, a: nat, g: Stack, last: Tree, l: string)
    requires At(toks, a, [")", l]) && Clean(l) && g.Push?
    ensures Exec(num, toks, a, a + 2, Open(last, g)) ==
      Done(Open(Tree(Some(l), Present(g.top.closed + [last]), if num(l) then Some(l) else g.top.confidence),
                g.below))
  {
    AtToken(toks, a, [")", l], 0);
    AtToken(toks, a, [")", l], 1);
    TextIsNoDelimiter(l);
    var p := Close(g.top, last);
    var p' := if num(l) then p.(confidence := Some(l)) else p;
    ExecOne(num, toks, a, Open(last, g));
    ExecOne(num, toks, a + 1, Open(p', g.below));
    ExecThen(num, toks, a, a + 1, a + 2, Open(last, g), Open(p', g.below), Open(p'.(name := Some(l)), g.below));
  }

  lemma AdoptTwice(g: Stack, a: seq<Tree>, b: seq<Tree>)
    requires g.Push?
    ensures Adopt(Adopt(g, a), b) == Adopt(g, a + b)
  {
    assert g.top.closed + a + b == g.top.closed + (a + b);
  }

  lemma AdoptNothing(g: Stack)
    requires g.Push?
    ensures Adopt(g, []) == g
  {
    assert g.top.closed + [] == g.top.closed;
  }

  /** The nodes of subtrees m.. of clade `n`, all but the last. */
  function Inner(num: string -> bool, n: Newick, m: nat): seq<Tree>
    requires n.Clade? && m < |n.kids|
    decreases |n.kids| - m
  {
    if m + 1 == |n.kids| then [] else [ToTree(num, n.kids[m])] + Inner(num, n, m + 1)
  }

  /** Inner(num, n, m) is the list of the children of the clade's node from m on,
      without the last one. */
  lemma {:induction false} InnerChildren(num: string -> bool, n: Newick, m: nat)
    requires n.Clade? && m < |n.kids|
    ensures Inner(num, n, m) + [ToTree(num, n.kids[|n.kids| - 1])] == ToTree(num, n).children.items[m..]
    decreases |n.kids| - m
  {
    var kt := ToTree(num, n).children.items;
    if m + 1 == |n.kids| {
      assert kt[m..] == [kt[m]];
    } else {
      InnerChildren(num, n, m + 1);
      assert kt[m..] == [kt[m]] + kt[m + 1..];
    }
  }

  /** One subtree and the comma after it: the subtree's node is moved to the
      open node and a fresh cursor takes its place. */
  lemma {:induction false} ExecKidThenComma(num: string -> bool, toks: seq<string>, p: nat, r: nat, n: Newick, m: nat, g: Stack)
    requires n.Clade? && m < |n.kids| && r == p + |Emit(n.kids[m])| + 1
    requires WellFormed(n.kids[m]) && At(toks, p, Emit(n.kids[m]) + [","]) && g.Push?
    requires p > 0 && (Is(toks[p - 1], '(') || Is(toks[p - 1], ','))
    ensures Exec(num, toks, p, r, Open(Empty, g)) == Done(Open(Empty, Adopt(g, [ToTree(num, n.kids[m])])))
    decreases n, 0, |n.kids| - m, 0
  {
    var kid := n.kids[m];
    var q := r - 1;
    AtSplit(toks, p, Emit(kid), [","]);
    AtToken(toks, q, [","], 0);
    var t := ToTree(num, kid);
    ExecEmit(num, toks, p, q, kid, g);
    ExecOne(num, toks, q, Open(t, g));
    ExecThen(num, toks, p, q, r, Open(Empty, g), Open(t, g), Open(Empty, Adopt(g, [t])));
  }

  /** Where the first subtree, its comma and the other subtrees stand. */
  lemma KidsLayout(toks: seq<string>, p: nat, q: nat, r: nat, n: Newick, m: nat)
    requires n.Clade? && m + 1 < |n.kids| && At(toks, p, EmitKids(n, m))
    requires q == p + |Emit(n.kids[m])| + 1 && r == p + |EmitKids(n, m)|
    ensures At(toks, p, Emit(n.kids[m]) + [","]) && At(toks, q, EmitKids(n, m + 1))
    ensures p < q <= r <= |toks| && r == q + |EmitKids(n, m + 1)| && Is(toks[q - 1], ',')
  {
    var e := Emit(n.kids[m]);
    assert EmitKids(n, m) == e + [","] + EmitKids(n, m + 1);
    AtSplit(toks, p, e + [","], EmitKids(n, m + 1));
    AtToken(toks, p, e + [","], |e|);
  }

  /** The subtrees of a well-formed clade are well formed. */
  lemma KidWellFormed(n: Newick, m: nat)
    requires n.Clade? && WellFormed(n) && m < |n.kids|
    ensures WellFormed(n.kids[m])
  {
    assert n.kids[m] in n.kids;
  }

  /** A subtree and its comma, then the other subtrees. */
  lemma ExecKidsStep(num: string -> bool, toks: seq<string>, p: nat, q: nat, r: nat, g: Stack, t: Tree, inner: seq<Tree>, last: Tree)
    requires g.Push? && p <= q <= r <= |toks|
    requires Exec(num, toks, p, q, Open(Empty, g)) == Done(Open(Empty, Adopt(g, [t])))
    requires Exec(num, toks, q, r, Open(Empty, Adopt(g, [t]))) == Done(Open(last, Adopt(Adopt(g, [t]), inner)))
    ensures Exec(num, toks, p, r, Open(Empty, g)) == Done(Open(last, Adopt(g, [t] + inner)))
  {
    AdoptTwice(g, [t], inner);
    ExecThen(num, toks, p, q, r, Open(Empty, g), Open(Empty, Adopt(g, [t])), Open(last, Adopt(g, [t] + inner)));
  }

  /** The last subtree of a clade, with no comma after it. */
  lemma {:induction false} ExecLastKid(num: string -> bool, toks: seq<string>, p: nat, r: nat, n: Newick, m: nat, g: Stack)
    requires n.Clade? && WellFormed(n) && m + 1 == |n.kids| && At(toks, p, EmitKids(n, m))
    requires r == p + |EmitKids(n, m)|
    requires p > 0 && (Is(toks[p - 1], '(') || Is(toks[p - 1], ',')) && g.Push?
    ensures Exec(num, toks, p, r, Open(Empty, g)) == Done(Open(ToTree(num, n.kids[m]), Adopt(g, Inner(num, n, m))))
    decreases n, 0, |n.kids| - m, 0
  {
    var kid := n.kids[m];
    KidWellFormed(n, m);
    assert EmitKids(n, m) == Emit(kid);
    assert Inner(num, n, m) == [];
    AdoptNothing(g);
    ExecEmit(num, toks, p, r, kid, g);
  }

  /** The subtrees of a clade, one after the other: each becomes the cursor
      in turn and is moved to the open node by the comma after it. */
  lemma {:induction false} ExecKids(num: string -> bool, toks: seq<string>, p: nat, r: nat, n: Newick, m: nat, g: Stack)
    requires n.Clade? && WellFormed(n) && m < |n.kids| && At(toks, p, EmitKids(n, m))
    requires r == p + |EmitKids(n, m)|
    requires p > 0 && (Is(toks[p - 1], '(') || Is(toks[p - 1], ',')) && g.Push?
    ensures Exec(num, toks, p, r, Open(Empty, g)) ==
      Done(Open(ToTree(num, n.kids[|n.kids| - 1]), Adopt(g, Inner(num, n, m))))
    decreases n, 0, |n.kids| - m, 1
  {
    if m + 1 == |n.kids| {
      ExecLastKid(num, toks, p, r, n, m, g);
    } else {
      var kid := n.kids[m];
      var q := p + |Emit(kid)| + 1;
      KidsLayout(toks, p, q, r, n, m);
      KidWellFormed(n, m);
      var t := ToTree(num, kid);
      var inner := Inner(num, n, m + 1);
      assert Inner(num, n, m) == [t] + inner;
      ExecKidThenComma(num, toks, p, q, n, m, g);
      ExecKids(num, toks, q, r, n, m + 1, Adopt(g, [t]));
      ExecKidsStep(num, toks, p, q, r, g, t, inner, ToTree(num, n.kids[|n.kids| - 1]));
    }
  }

  /** The tokens of a tree, met with a fresh cursor, leave that cursor as the
      node the tree describes. A leaf must follow `(` or `,` to be named. */
  lemma {:induction false} ExecEmit(num: string -> bool, toks: seq<string>, p: nat, e: nat, n: Newick, anc: Stack)
    requires WellFormed(n) && At(toks, p, Emit(n)) && e == p + |Emit(n)|
    requires n.Clade? || (p > 0 && (Is(toks[p - 1], '(') || Is(toks[p - 1], ',')))
    ensures Exec(num, toks, p, e, Open(Empty, anc)) == Done(Open(ToTree(num, n), anc))
    decreases n, 1, 0, 0
  {
    if n.Leaf? {
      ExecLeaf(num, toks, p, e, n, anc);
    } else {
      ExecClade(num, toks, p, e, n, anc);
    }
  }

  /** The `(` of a clade and its subtrees, met with cursor `t`: `t` is
      pushed with no children but the first subtree, and after the last
      subtree the frame holds every subtree's node but the last, which is
      the cursor. */
  lemma {:induction false} ExecCladeBody(num: string -> bool, toks: seq<string>, q: nat, a: nat, n: Newick, t: Tree, anc: Stack)
    requires n.Clade? && WellFormed(n) && At(toks, q, ["("] + EmitKids(n, 0))
    requires a == q + 1 + |EmitKids(n, 0)|
    ensures Exec(num, toks, q, a, Open(t, anc)) ==
      Done(Open(ToTree(num, n.kids[|n.kids| - 1]), Adopt(Push(anc, Frame(t.name, t.confidence, [])), Inner(num, n, 0))))
    decreases n, 0, |n.kids| + 1, 0
  {
    var k := EmitKids(n, 0);
    AtSplit(toks, q, ["("], k);
    AtToken(toks, q, ["("], 0);
    var g := Push(anc, Frame(t.name, t.confidence, []));
    ExecOne(num, toks, q, Open(t, anc));
    ExecKids(num, toks, q + 1, a, n, 0, g);
    ExecThen(num, toks, q, q + 1, a, Open(t, anc), Open(Empty, g),
             Open(ToTree(num, n.kids[|n.kids| - 1]), Adopt(g, Inner(num, n, 0))));
  }

  /** Where the `(`, the `)`, the label and the branch length of a clade
      stand, from its `(` on. */
  lemma CladeLayout(toks: seq<string>, q: nat, a: nat, e: nat, n: Newick)
    requires n.Clade? && |n.kids| > 0 && At(toks, q, Emit(n)[1..])
    requires a == q + 1 + |EmitKids(n, 0)| && e == q + |Emit(n)| - 1
    ensures At(toks, q, ["("] + EmitKids(n, 0)) && At(toks, a, [")", n.tag])
    ensures At(toks, a + 2, LengthTokens(n.branch)) && e == a + 2 + |LengthTokens(n.branch)|
  {
    var body := ["("] + EmitKids(n, 0);
    var close := [")", n.tag];
    var lt := LengthTokens(n.branch);
    assert Emit(n)[1..] == body + close + lt;
    AtSplit(toks, q, body + close, lt);
    AtSplit(toks, q, body, close);
  }

  /** The node that the tokens of clade `n` from its `(` on leave when they
      meet the cursor `t`: the clade's node, whose confidence falls back to
      `t`'s when the clade's label is not numeric. */
  function Reopened(num: string -> bool, n: Newick, t: Tree): Tree
    requires n.Clade?
  {
    ToTree(num, n).(confidence := if num(n.tag) then Some(n.tag) else t.confidence)
  }

  /** The tokens of a clade from its `(` on, met with any cursor `t`: the
      cursor ends as the clade's node. The children `t` had are replaced by
      the clade's subtrees, its name by the clade's label, and its
      confidence is kept only when the label is not numeric. */
  lemma {:induction false} ExecReopen(num: string -> bool, toks: seq<string>, q: nat, e: nat, n: Newick, t: Tree, anc: Stack)
    requires n.Clade? && WellFormed(n) && At(toks, q, Emit(n)[1..]) && e == q + |Emit(n)| - 1
    ensures Exec(num, toks, q, e, Open(t, anc)) == Done(Open(Reopened(num, n, t), anc))
    ensures Reopened(num, n, t).children == ToTree(num, n).children && Reopened(num, n, t).name == Some(n.tag)
    decreases n, 0, |n.kids| + 2, 0
  {
    var a := q + 1 + |EmitKids(n, 0)|;
    CladeLayout(toks, q, a, e, n);
    ExecCladeBody(num, toks, q, a, n, t, anc);
    var g := Push(anc, Frame(t.name, t.confidence, []));
    var last := ToTree(num, n.kids[|n.kids| - 1]);
    var g2 := Adopt(g, Inner(num, n, 0));
    var r := Reopened(num, n, t);
    ExecCladeClose(num, toks, a, g2, last, n.tag);
    InnerChildren(num, n, 0);
    CloseClade(num, n, g2, last, t);
    ExecThen(num, toks, q, a, a + 2, Open(t, anc), Open(last, g2), Open(r, anc));
    ExecLength(num, toks, a + 2, e, n.branch, Open(r, anc));
    ExecThen(num, toks, q, a + 2, e, Open(t, anc), Open(r, anc), Open(r, anc));
  }

  /** A clade met with a fresh cursor: the empty text before its `(` names
      the cursor "" or nothing, and the clade's tokens leave the clade's node. */
  lemma {:induction false} ExecClade(num: string -> bool, toks: seq<string>, p: nat, e: nat, n: Newick, anc: Stack)
    requires n.Clade? && WellFormed(n) && At(toks, p, Emit(n)) && e == p + |Emit(n)|
    ensures Exec(num, toks, p, e, Open(Empty, anc)) == Done(Open(ToTree(num, n), anc))
    decreases n, 0, |n.kids| + 3, 0
  {
    assert Emit(n) == [""] + Emit(n)[1..];
    AtSplit(toks, p, [""], Emit(n)[1..]);
    AtToken(toks, p, [""], 0);
    var t0 := if FollowsDelimiter(toks, p) then Empty.(name := Some("")) else Empty;
    ExecOne(num, toks, p, Open(Empty, anc));
    ExecReopen(num, toks, p + 1, e, n, t0, anc);
    ExecThen(num, toks, p, p + 1, e, Open(Empty, anc), Open(t0, anc), Open(ToTree(num, n), anc));
  }

  /** The node rebuilt at the `)` of a clade is the clade's node, with the
      confidence of the frame when the label is not numeric. */
  lemma CloseClade(num: string -> bool, n: Newick, g2: Stack, last: Tree, t: Tree)
    requires n.Clade? && g2.Push? && g2.top.confidence == t.confidence
    requires g2.top.closed + [last] == ToTree(num, n).children.items[0..]
    ensures Tree(Some(n.tag), Present(g2.top.closed + [last]), if num(n.tag) then Some(n.tag) else g2.top.confidence)
      == Reopened(num, n, t)
  {
    var kt := ToTree(num, n).children.items;
    assert kt[0..] == kt;
  }

  lemma AtPrefix(a: seq<string>, b: seq<string>)
    ensures At(a + b, 0, a)
  {
    assert forall q :: 0 <= q < |a| ==> (a + b)[0 + q] == a[q];
  }

  /** A clade followed by `;` and the empty text after it: the cursor is
      the clade's node and the stack is empty again. */
  lemma ParseEmitted(num: string -> bool, c: Newick)
    requires c.Clade? && WellFormed(c)
    ensures Exec(num, Emit(c) + [";", ""], 0, |Emit(c)| + 2, Initial) == Done(Open(ToTree(num, c), Bottom))
    ensures Parse(num, Emit(c) + [";", ""]) == Done(Some(ToTree(num, c)))
  {
    var e := Emit(c);
    var toks := e + [";", ""];
    AtPrefix(e, [";", ""]);
    ExecClade(num, toks, 0, |e|, c, Bottom);
    var st := Open(ToTree(num, c), Bottom);
    assert toks[|e|] == ";" && toks[|e| + 1] == "";
    ExecOne(num, toks, |e|, st);
    ExecOne(num, toks, |e| + 1, st);
    ExecThen(num, toks, |e|, |e| + 1, |e| + 2, st, st, st);
    ExecThen(num, toks, 0, |e|, |e| + 2, Initial, st, st);
  }

  /** The split of the text of a tree, ended by `;`, is the tree's tokens,
      the `;` and the empty text after it. */
  lemma TokenizeText(c: Newick)
    requires WellFormed(c)
    ensures Tokenize(Text(c) + ";") == Emit(c) + [";", ""]
  {
    var e := Emit(c);
    EmitAlternates(c);
    JoinAlternating(e, ';', [""]);
    assert e + [[';']] + [""] == e + [";", ""];
    ConcatAppend(e, [";", ""]);
    assert Concat([";", ""]) == ";";
    TokenizeConcat(e + [";", ""]);
  }

  /** Round trip: parseNewick reads the text of a well-formed tree back as
      the tree of named nodes it describes, with the numeric clade labels as
      confidences. */
  lemma ParseNewickText(c: Newick)
    requires c.Clade? && WellFormed(c)
    ensures ParseNewick(Text(c) + ";") == Done(Some(ToTree(IsNumeric, c)))
  {
    TokenizeText(c);
    ParseEmitted(IsNumeric, c);
  }

  /** A tree that is a single leaf: its label opens the input, where no
      delimiter precedes it, so it is no name; the node returned is the
      initial empty node. */
  lemma ParseNewickLeaf(n: Newick)
    requires n.Leaf? && WellFormed(n)
    ensures ParseNewick(Text(n) + ";") == Done(Some(Empty))
  {
    var e := Emit(n);
    var toks := e + [";", ""];
    TokenizeText(n);
    AtPrefix(e, [";", ""]);
    AtSplit(toks, 0, [n.tag], LengthTokens(n.branch));
    AtToken(toks, 0, [n.tag], 0);
    TextIsNoDelimiter(n.tag);
    ExecOne(IsNumeric, toks, 0, Initial);
    ExecLength(IsNumeric, toks, 1, |e|, n.branch, Initial);
    ExecThen(IsNumeric, toks, 0, 1, |e|, Initial, Initial, Initial);
    assert toks[|e|] == ";" && toks[|e| + 1] == "";
    ExecOne(IsNumeric, toks, |e|, Initial);
    ExecOne(IsNumeric, toks, |e| + 1, Initial);
    ExecThen(IsNumeric, toks, |e|, |e| + 1, |e| + 2, Initial, Initial, Initial);
    ExecThen(IsNumeric, toks, 0, |e|, |e| + 2, Initial, Initial, Initial);
  }

  /** A clade whose `)` never comes: parseNewick returns the node of its last
      subtree, without an error, whether or not the input ends with `;`. */
  lemma ParseUnclosed(num: string -> bool, c: Newick)
    requires c.Clade? && WellFormed(c)
    ensures Parse(num, ["", "("] + EmitKids(c, 0)) == Done(Some(ToTree(num, c.kids[|c.kids| - 1])))
    ensures Parse(num, ["", "("] + EmitKids(c, 0) + [";", ""]) == Done(Some(ToTree(num, c.kids[|c.kids| - 1])))
  {
    ExecUnclosed(num, c, ["", "("] + EmitKids(c, 0));
    ExecUnclosed(num, c, ["", "("] + EmitKids(c, 0) + [";", ""]);
    var u := ["", "("] + EmitKids(c, 0);
    var toks := u + [";", ""];
    var st := Open(ToTree(num, c.kids[|c.kids| - 1]), Adopt(Push(Bottom, Frame(None, None, [])), Inner(num, c, 0)));
    assert toks[|u|] == ";" && toks[|u| + 1] == "";
    ExecOne(num, toks, |u|, st);
    ExecOne(num, toks, |u| + 1, st);
    ExecThen(num, toks, |u|, |u| + 1, |u| + 2, st, st, st);
    ExecThen(num, toks, 0, |u|, |u| + 2, Initial, st, st);
  }

  /** The tokens of an unclosed clade, at the start of `toks`, leave the
      node of its last subtree as the cursor. */
  lemma ExecUnclosed(num: string -> bool, c: Newick, toks: seq<string>)
    requires c.Clade? && WellFormed(c)
    requires At(toks, 0, ["", "("] + EmitKids(c, 0))
    ensures Exec(num, toks, 0, 2 + |EmitKids(c, 0)|, Initial) ==
      Done(Open(ToTree(num, c.kids[|c.kids| - 1]), Adopt(Push(Bottom, Frame(None, None, [])), Inner(num, c, 0))))
  {
    var k := EmitKids(c, 0);
    var a := 2 + |k|;
    assert ["", "("] + k == [""] + (["("] + k);
    AtSplit(toks, 0, [""], ["("] + k);
    AtToken(toks, 0, [""], 0);
    ExecOne(num, toks, 0, Initial);
    ExecCladeBody(num, toks, 1, a, c, Empty, Bottom);
    ExecThen(num, toks, 0, 1, a, Initial, Initial,
             Open(ToTree(num, c.kids[|c.kids| - 1]), Adopt(Push(Bottom, Frame(None, None, [])), Inner(num, c, 0))));
  }

  /** The same, on the text: the input that stops before the clade's `)`,
      with or without a final `;`. */
  lemma ParseNewickUnclosed(c: Newick)
    requires c.Clade? && WellFormed(c)
    ensures ParseNewick("(" + Concat(EmitKids(c, 0))) == Done(Some(ToTree(IsNumeric, c.kids[|c.kids| - 1])))
    ensures ParseNewick("(" + Concat(EmitKids(c, 0)) + ";") == Done(Some(ToTree(IsNumeric, c.kids[|c.kids| - 1])))
  {
    TokenizeUnclosed(c);
    ParseUnclosed(IsNumeric, c);
  }

  /** The split of an unclosed clade's text, with or without a final `;`. */
  lemma TokenizeUnclosed(c: Newick)
    requires c.Clade? && WellFormed(c)
    ensures Tokenize("(" + Concat(EmitKids(c, 0))) == ["", "("] + EmitKids(c, 0)
    ensures Tokenize("(" + Concat(EmitKids(c, 0)) + ";") == ["", "("] + EmitKids(c, 0) + [";", ""]
  {
    var k := EmitKids(c, 0);
    var u := ["", "("] + k;
    EmitKidsAlternate(c, 0);
    JoinAlternating([""], '(', k);
    assert [""] + [['(']] + k == u;
    ConcatAppend(["", "("], k);
    assert Concat(["", "("]) == "(";
    TokenizeConcat(u);
    JoinAlternating(u, ';', [""]);
    assert u + [[';']] + [""] == u + [";", ""];
    ConcatAppend(u, [";", ""]);
    assert Concat([";", ""]) == ";";
    TokenizeConcat(u + [";", ""]);
  }

  /** A clade read where the cursor is already a parsed clade: the `(`
      replaces that node's children, so only the second clade's subtrees
      remain; the node is named by the second label, and keeps the first
      clade's confidence unless the second label is numeric. */
  lemma ParseReopened(num: string -> bool, c1: Newick, c2: Newick)
    requires c1.Clade? && WellFormed(c1) && c2.Clade? && WellFormed(c2)
    ensures var r := Parse(num, Emit(c1) + Emit(c2)[1..] + [";", ""]);
      r.Done? && r.value.Some? &&
      r.value.value.children == ToTree(num, c2).children &&
      r.value.value.name == Some(c2.tag) &&
      r.value.value.confidence ==
        (if num(c2.tag) then Some(c2.tag) else if num(c1.tag) then Some(c1.tag) else None)
  {
    var toks := Emit(c1) + Emit(c2)[1..] + [";", ""];
    var e := |Emit(c1)| + |Emit(c2)[1..]|;
    ExecTwo(num, c1, c2, toks);
    var st := Open(Reopened(num, c2, ToTree(num, c1)), Bottom);
    assert toks[e] == ";" && toks[e + 1] == "";
    ExecOne(num, toks, e, st);
    ExecOne(num, toks, e + 1, st);
    ExecThen(num, toks, e, e + 1, e + 2, st, st, st);
    ExecThen(num, toks, 0, e, e + 2, Initial, st, st);
  }

  /** The tokens of the two clades, before the `;`. */
  lemma ExecTwo(num: string -> bool, c1: Newick, c2: Newick, toks: seq<string>)
    requires c1.Clade? && WellFormed(c1) && c2.Clade? && WellFormed(c2)
    requires toks == Emit(c1) + Emit(c2)[1..] + [";", ""]
    ensures Exec(num, toks, 0, |Emit(c1)| + |Emit(c2)[1..]|, Initial) ==
      Done(Open(Reopened(num, c2, ToTree(num, c1)), Bottom))
  {
    var e1 := Emit(c1);
    var rest := Emit(c2)[1..];
    AtPrefix(e1, rest + [";", ""]);
    assert e1 + (rest + [";", ""]) == toks;
    ExecClade(num, toks, 0, |e1|, c1, Bottom);
    var t1 := ToTree(num, c1);
    AtMiddle(e1, rest, [";", ""]);
    ExecReopen(num, toks, |e1|, |e1| + |rest|, c2, t1, Bottom);
    ExecThen(num, toks, 0, |e1|, |e1| + |rest|, Initial, Open(t1, Bottom), Open(Reopened(num, c2, t1), Bottom));
  }

  lemma AtMiddle(a: seq<string>, b: seq<string>, c: seq<string>)
    ensures At(a + b + c, |a|, b)
  {
    assert forall q :: 0 <= q < |b| ==> (a + b + c)[|a| + q] == b[q];
  }

  /** The tokens of a clade after its `(` alternate, as the split's output does. */
  lemma CladeRestAlternates(n: Newick)
    requires n.Clade? && WellFormed(n)
    ensures Emit(n)[1..] == [['(']] + Emit(n)[2..]
    ensures Alternating(Emit(n)[2..]) && CleanTexts(Emit(n)[2..])
  {
    var k := EmitKids(n, 0);
    var tail := [n.tag] + LengthTokens(n.branch);
    EmitKidsAlternate(n, 0);
    LengthTokensAlternate(n.tag, n.branch);
    JoinAlternating(k, ')', tail);
    CladeRest(n, k + [[')']] + tail);
  }

  lemma CladeRest(n: Newick, z: seq<string>)
    requires n.Clade? && |n.kids| > 0 && z == EmitKids(n, 0) + [[')']] + ([n.tag] + LengthTokens(n.branch))
    ensures Emit(n) == ["", "("] + z && Emit(n)[1..] == [['(']] + z && Emit(n)[2..] == z
  {
  }

  /** The tokens of two clades written one after the other, ended by `;`,
      alternate as the split's output does. */
  lemma TwoAlternate(c1: Newick, c2: Newick)
    requires c1.Clade? && WellFormed(c1) && c2.Clade? && WellFormed(c2)
    ensures var toks := Emit(c1) + Emit(c2)[1..] + [";", ""];
      Alternating(toks) && CleanTexts(toks)
  {
    var e1 := Emit(c1);
    var z := Emit(c2)[2..];
    EmitAlternates(c1);
    CladeRestAlternates(c2);
    JoinAlternating(e1, '(', z);
    JoinAlternating(e1 + [['(']] + z, ';', [""]);
    assert e1 + [['(']] + z + [[';']] + [""] == e1 + Emit(c2)[1..] + [";", ""];
  }

  /** The text of those tokens is the two texts and the `;`. */
  lemma TwoText(c1: Newick, c2: Newick)
    requires c1.Clade? && WellFormed(c1) && c2.Clade? && WellFormed(c2)
    ensures Concat(Emit(c1) + Emit(c2)[1..] + [";", ""]) == Text(c1) + Text(c2) + ";"
  {
    var e1 := Emit(c1);
    var r := Emit(c2)[1..];
    CladeRestAlternates(c2);
    assert Emit(c2) == [""] + r;
    ConcatUnfold(Emit(c2));
    assert Text(c2) == Concat(r);
    ConcatAppend(e1 + r, [";", ""]);
    ConcatAppend(e1, r);
    Pair(";", "");
  }

  /** The split of two clades written one after the other, ended by `;`:
      the label (or branch length) that ends the first text and the empty
      text before the second `(` are one token. */
  lemma TokenizeTwo(c1: Newick, c2: Newick)
    requires c1.Clade? && WellFormed(c1) && c2.Clade? && WellFormed(c2)
    ensures Tokenize(Text(c1) + Text(c2) + ";") == Emit(c1) + Emit(c2)[1..] + [";", ""]
  {
    TwoAlternate(c1, c2);
    TwoText(c1, c2);
    TokenizeConcat(Emit(c1) + Emit(c2)[1..] + [";", ""]);
  }

  /** The same, on the text: of two clades written one after the other,
      parseNewick returns a node with the second clade's subtrees only. */
  lemma ParseNewickReopened(c1: Newick, c2: Newick)
    requires c1.Clade? && WellFormed(c1) && c2.Clade? && WellFormed(c2)
    ensures var r := ParseNewick(Text(c1) + Text(c2) + ";");
      r.Done? && r.value.Some? &&
      r.value.value.children == ToTree(IsNumeric, c2).children &&
      r.value.value.name == Some(c2.tag) &&
      r.value.value.confidence ==
        (if IsNumeric(c2.tag) then Some(c2.tag) else if IsNumeric(c1.tag) then Some(c1.tag) else None)
  {
    TokenizeTwo(c1, c2);
    ParseReopened(IsNumeric, c1, c2);
  }

  lemma TwoLeaves(c: Newick)
    requires c.Clade? && c.kids == [Leaf("A", None), Leaf("B", None)]
    ensures WellFormed(c.kids[0]) && WellFormed(c.kids[1])
    ensures Concat(EmitKids(c, 0)) == "A,B"
  {
    assert IsText("A") && IsText("B");
    assert EmitKids(c, 1) == ["B"];
    assert EmitKids(c, 0) == ["A", ",", "B"];
    ConcatUnfold(["A", ",", "B"]);
    ConcatUnfold([",", "B"]);
    ConcatUnfold(["B"]);
  }

  lemma Pair(a: string, b: string)
    ensures Concat([a, b]) == a + b
  {
    ConcatUnfold([a, b]);
    ConcatUnfold([b]);
  }

  /** The text of a clade: its subtrees between brackets, then its label. */
  lemma CladeText(n: Newick, kids: string)
    requires n.Clade? && n.kids != [] && n.branch == None && Concat(EmitKids(n, 0)) == kids
    ensures Concat(Emit(n)) == "(" + kids + ")" + n.tag
  {
    var k := EmitKids(n, 0);
    assert Emit(n) == ["", "("] + k + [")", n.tag];
    ConcatAppend(["", "("] + k, [")", n.tag]);
    ConcatAppend(["", "("], k);
    Pair("", "(");
    Pair(")", n.tag);
  }

  lemma ConfidenceText(c: Newick)
    requires c == Clade([Leaf("A", None), Leaf("B", None)], "0.95", None)
    ensures WellFormed(c) && Text(c) == "(A,B)0.95"
  {
    TwoLeaves(c);
    var l := "0.95";
    assert Clean(l) by {
      assert IsText(l) && !IsSpace(l[0]) && !IsSpace(l[3]);
    }
    CladeText(c, "A,B");
  }

  lemma ConfidenceTree(num: string -> bool, c: Newick)
    requires c == Clade([Leaf("A", None), Leaf("B", None)], "0.95", None) && num("0.95")
    ensures ToTree(num, c) ==
      Tree(Some("0.95"), Present([Tree(Some("A"), Absent, None), Tree(Some("B"), Absent, None)]), Some("0.95"))
  {
    assert ToTree(num, c).children.items == [ToTree(num, c.kids[0]), ToTree(num, c.kids[1])];
  }

  /** A numeric clade label is both the name and the confidence of the
      clade's node; leaves are named by their labels. */
  lemma ExampleConfidence()
    ensures ParseNewick("(A,B)0.95;") ==
      Done(Some(Tree(Some("0.95"), Present([Tree(Some("A"), Absent, None), Tree(Some("B"), Absent, None)]), Some("0.95"))))
  {
    var c := Clade([Leaf("A", None), Leaf("B", None)], "0.95", None);
    ConfidenceText(c);
    assert Text(c) + ";" == "(A,B)0.95;";
    NumeralIsNumeric();
    ConfidenceTree(IsNumeric, c);
    ParseNewickText(c);
  }

  /** Input that stops before its `)`: the last leaf read is returned. */
  lemma ExampleUnclosed()
    ensures ParseNewick("(A,B") == Done(Some(Tree(Some("B"), Absent, None)))
  {
    var c := Clade([Leaf("A", None), Leaf("B", None)], "", None);
    TwoLeaves(c);
    assert "(" + "A,B" == "(A,B";
    ParseNewickUnclosed(c);
  }

  /** The text of a clade with one unlabelled leaf and no label. */
  lemma OneLeafText(c: Newick, l: string)
    requires c == Clade([Leaf(l, None)], "", None) && IsText(l) && l != "" && !IsSpace(l[0]) && !IsSpace(l[|l| - 1])
    ensures WellFormed(c) && Text(c) == "(" + l + ")"
  {
    assert Clean(l) && WellFormed(c.kids[0]);
    assert EmitKids(c, 0) == [l];
    ConcatUnfold([l]);
    CladeText(c, l);
  }

  /** `(A)(B);`: the second `(` replaces the root's children, so the root
      has only the leaf B. Both labels are empty, and the empty text after
      the last `)` is the root's name and confidence. */
  lemma ExampleReopened(s: string)
    requires s == "(A)(B);"
    ensures ParseNewick(s) == Done(Some(Tree(Some(""), Present([Tree(Some("B"), Absent, None)]), Some(""))))
  {
    var c1 := Clade([Leaf("A", None)], "", None);
    var c2 := Clade([Leaf("B", None)], "", None);
    OneLeafText(c1, "A");
    OneLeafText(c2, "B");
    ReopenedString(Text(c1), Text(c2), s);
    EmptyIsNumeric();
    ParseNewickReopened(c1, c2);
    OneLeafTree(IsNumeric, c2, "B");
  }

  lemma ReopenedString(t1: string, t2: string, s: string)
    requires t1 == "(" + "A" + ")" && t2 == "(" + "B" + ")" && s == "(A)(B);"
    ensures t1 + t2 + ";" == s
  {
  }

  lemma OneLeafTree(num: string -> bool, c: Newick, l: string)
    requires c == Clade([Leaf(l, None)], "", None)
    ensures ToTree(num, c).children == Present([Tree(Some(l), Absent, None)])
  {
    assert ToTree(num, c).children.items == [ToTree(num, c.kids[0])];
  }
}
