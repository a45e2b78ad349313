/** parseNewick: one pass over the tokens of the split, keeping a cursor node
    (`tree`) and a stack of the nodes whose clade is still open (`ancestors`).
    In the program every node is a mutable object and the cursor is always
    the last child of the node on top of the stack; here the same state is a
    zipper of values: each stack frame holds an open node without its last
    child, and the cursor is that last child. */
module NewickParser {
  import opened JsText
  import opened Tokenizer

  /** A parsed node: the `name`, `children` and `confidence` properties,
      each possibly absent. The confidence is kept as the token it is read
      from; layout applies parseFloat to it. */
  datatype Tree = Tree(name: Option<string>, children: Children, confidence: Option<string>)

  /** The `children` property: absent, or an array of nodes. */
  datatype Children = Absent | Present(items: seq<Tree>)

  /** A fresh `{}`. */
  const Empty := Tree(None, Absent, None)

  /** A node on the stack, without its last child. */
  datatype Frame = Frame(name: Option<string>, confidence: Option<string>, closed: seq<Tree>)

  /** The `ancestors` array, which the function only pushes to, pops from
      and reads the top of. */
  datatype Stack = Bottom | Push(below: Stack, top: Frame)

  function Height(s: Stack): nat {
    if s.Bottom? then 0 else 1 + Height(s.below)
  }

  /** The loop state: a cursor with its stack, or an undefined cursor (after
      popping an empty stack, which leaves the stack empty). */
  datatype State = Open(cursor: Tree, ancestors: Stack) | Undefined

  /** A run either finishes or throws the TypeError of reading a property of
      `undefined`. */
  datatype Outcome<T> = Done(value: T) | TypeError

  const Initial := Open(Empty, Bottom)

  /** The node of a frame with its last child put back. */
  function Close(f: Frame, last: Tree): (t: Tree)
    ensures t.children == Present(f.closed + [last])
    ensures t.name == f.name && t.confidence == f.confidence
  {
    Tree(f.name, Present(f.closed + [last]), f.confidence)
  }

  /** The stack with trees added to the children of its top node. */
  function Adopt(anc: Stack, ts: seq<Tree>): (r: Stack)
    requires anc.Push?
    ensures r.Push? && r.below == anc.below && r.top.closed == anc.top.closed + ts
    ensures r.top.name == anc.top.name && r.top.confidence == anc.top.confidence
  {
    Push(anc.below, anc.top.(closed := anc.top.closed + ts))
  }

  /** `tok` is the one-character string `c`. */
  predicate Is(tok: string, c: char) {
    |tok| == 1 && tok[0] == c
  }

  /** The token before position i is `(`, `)` or `,` (at position 0 the
      token before is undefined). */
  predicate FollowsDelimiter(toks: seq<string>, i: nat)
    requires i < |toks|
  {
    i > 0 && (Is(toks[i - 1], '(') || Is(toks[i - 1], ')') || Is(toks[i - 1], ','))
  }

  /** A token follows position i and `isNaN` rejects it. */
  predicate ConfidenceAhead(num: string -> bool, toks: seq<string>, i: nat) {
    i + 1 < |toks| && num(toks[i + 1])
  }

  /** One iteration of the loop, at token i. */
  function Step(num: string -> bool, toks: seq<string>, i: nat, st: State): Outcome<State>
    requires i < |toks|
  {
    var tok := toks[i];
    if Is(tok, '(') then
      match st
      case Undefined => TypeError
      case Open(t, anc) => Done(Open(Empty, Push(anc, Frame(t.name, t.confidence, []))))
    else if Is(tok, ',') then
      match st
      case Undefined => TypeError
      case Open(t, anc) =>
        if anc.Bottom? then TypeError else Done(Open(Empty, Adopt(anc, [t])))
    else if Is(tok, ')') then
      if st.Undefined? || st.ancestors.Bottom? then
        if ConfidenceAhead(num, toks, i) then TypeError else Done(Undefined)
      else
        var p := Close(st.ancestors.top, st.cursor);
        var p' := if ConfidenceAhead(num, toks, i) then p.(confidence := Some(toks[i + 1])) else p;
        Done(Open(p', st.ancestors.below))
    else if Is(tok, ':') || Is(tok, ';') || !FollowsDelimiter(toks, i) then
      Done(st)
    else
      match st
      case Undefined => TypeError
      case Open(t, anc) => Done(Open(t.(name := Some(tok)), anc))
  }

  /** `(`: the cursor is pushed, and seen as a node again it has exactly one
      child, the fresh cursor; the children it had are gone. An undefined
      cursor throws. */
  lemma StepOpen(num: string -> bool, toks: seq<string>, i: nat, st: State)
    requires i < |toks| && Is(toks[i], '(')
    ensures st.Undefined? ==> Step(num, toks, i, st).TypeError?
    ensures st.Open? ==>
      var s := Step(num, toks, i, st);
      s.Done? && s.value.Open? && s.value.cursor == Empty &&
      s.value.ancestors.Push? && s.value.ancestors.below == st.ancestors &&
      Close(s.value.ancestors.top, s.value.cursor) == st.cursor.(children := Present([Empty]))
  {
  }

  /** `,`: a fresh cursor is appended to the children of the node on top of
      the stack, after the old cursor; the rest of the stack is kept. With
      no node on the stack, or an undefined cursor, it throws. */
  lemma StepComma(num: string -> bool, toks: seq<string>, i: nat, st: State)
    requires i < |toks| && Is(toks[i], ',')
    ensures st.Undefined? || st.ancestors.Bottom? ==> Step(num, toks, i, st).TypeError?
    ensures st.Open? && st.ancestors.Push? ==>
      var s := Step(num, toks, i, st);
      var before := Close(st.ancestors.top, st.cursor);
      s.Done? && s.value.Open? && s.value.cursor == Empty &&
      s.value.ancestors.Push? && s.value.ancestors.below == st.ancestors.below &&
      Close(s.value.ancestors.top, s.value.cursor) ==
        before.(children := Present(before.children.items + [Empty]))
  {
  }

  /** `)`: the node on top of the stack is popped and becomes the cursor,
      with every child it holds: the ones before the old cursor and, last,
      the old cursor itself. It takes the next token as its confidence
      when the test accepts it. On an empty stack the cursor
      becomes undefined, and an accepted next token then throws. */
  lemma StepClose(num: string -> bool, toks: seq<string>, i: nat, st: State)
    requires i < |toks| && Is(toks[i], ')')
    ensures (st.Undefined? || st.ancestors.Bottom?) ==>
      Step(num, toks, i, st) == if ConfidenceAhead(num, toks, i) then TypeError else Done(Undefined)
    ensures st.Open? && st.ancestors.Push? ==>
      var s := Step(num, toks, i, st);
      s.Done? && s.value.Open? && s.value.ancestors == st.ancestors.below &&
      s.value.cursor.children.Present? && s.value.cursor.children.items != [] &&
      s.value.cursor.children.items[|s.value.cursor.children.items| - 1] == st.cursor &&
      s.value.cursor.children == Close(st.ancestors.top, st.cursor).children &&
      s.value.cursor.name == st.ancestors.top.name &&
      s.value.cursor.confidence ==
        (if ConfidenceAhead(num, toks, i) then Some(toks[i + 1]) else st.ancestors.top.confidence) &&
      Height(s.value.ancestors) + 1 == Height(st.ancestors)
  {
  }

  /** The iterations for tokens i..j-1, from state `st`. */
  function Exec(num: string -> bool, toks: seq<string>, i: nat, j: nat, st: State): Outcome<State>
    requires i <= j <= |toks|
    decreases j - i
  {
    if i == j then Done(st)
    else
      match Step(num, toks, i, st)
      case TypeError => TypeError
      case Done(s) => Exec(num, toks, i + 1, j, s)
  }

  /** What the function returns: the cursor (None for undefined). */
  function Parse(num: string -> bool, toks: seq<string>): Outcome<Option<Tree>> {
    match Exec(num, toks, 0, |toks|, Initial)
    case TypeError => TypeError
    case Done(Undefined) => Done(None)
    case Done(Open(t, _)) => Done(Some(t))
  }

  /** parseNewick, whose `)` branch tests the next token with `!isNaN`. */
  function ParseNewick(s: string): Outcome<Option<Tree>> {
    Parse(IsNumeric, Tokenize(s))
  }

  /** Running i..k is running i..j and then j..k. */
  lemma {:induction false} ExecTrans(num: string -> bool, toks: seq<string>, i: nat, j: nat, k: nat, st: State)
    requires i <= j <= k <= |toks|
    ensures Exec(num, toks, i, j, st).Done? ==> Exec(num, toks, i, k, st) == Exec(num, toks, j, k, Exec(num, toks, i, j, st).value)
    ensures Exec(num, toks, i, j, st).TypeError? ==> Exec(num, toks, i, k, st).TypeError?
    decreases j - i
  {
    if i < j && Step(num, toks, i, st).Done? {
      ExecTrans(num, toks, i + 1, j, k, Step(num, toks, i, st).value);
    }
  }

  /** One token is one step. */
  lemma ExecOne(num: string -> bool, toks: seq<string>, i: nat, st: State)
    requires i < |toks|
    ensures Exec(num, toks, i, i + 1, st) == Step(num, toks, i, st)
  {
    assert Exec(num, toks, i, i, st) == Done(st);
  }

  /** Two runs that finish, one after the other. */
  lemma ExecThen(num: string -> bool, toks: seq<string>, i: nat, j: nat, k: nat, s0: State, s1: State, s2: State)
    requires i <= j <= k <= |toks|
    requires Exec(num, toks, i, j, s0) == Done(s1) && Exec(num, toks, j, k, s1) == Done(s2)
    ensures Exec(num, toks, i, k, s0) == Done(s2)
  {
    ExecTrans(num, toks, i, j, k, s0);
  }

  /** The run up to token i + 1 is the run up to token i and one more step. */
  lemma ExecNext(num: string -> bool, toks: seq<string>, i: nat, st: State)
    requires i < |toks| && Exec(num, toks, 0, i, Initial) == Done(st)
    ensures Exec(num, toks, 0, i + 1, Initial) == Step(num, toks, i, st)
  {
    ExecTrans(num, toks, 0, i, i + 1, Initial);
    ExecOne(num, toks, i, st);
  }

  /** The loop of parseNewick. */
  method ParseTokens(tokens: seq<string>) returns (r: Outcome<Option<Tree>>)
    ensures r == Parse(IsNumeric, tokens)
  {
    var ancestors: Stack := Bottom;
    var tree: Option<Tree> := Some(Empty);
    var i := 0;
    while i < |tokens|
      invariant i <= |tokens|
      invariant tree.None? ==> ancestors == Bottom
      invariant Exec(IsNumeric, tokens, 0, i, Initial) == Done(if tree.Some? then Open(tree.value, ancestors) else Undefined)
    {
      ExecNext(IsNumeric, tokens, i, if tree.Some? then Open(tree.value, ancestors) else Undefined);
      var token := tokens[i];
      if Is(token, '(') {
        if tree.None? {
          ExecTrans(IsNumeric, tokens, 0, i + 1, |tokens|, Initial);
          return TypeError;
        }
        ancestors := Push(ancestors, Frame(tree.value.name, tree.value.confidence, []));
        tree := Some(Empty);
      } else if Is(token, ',') {
        if tree.None? || ancestors == Bottom {
          ExecTrans(IsNumeric, tokens, 0, i + 1, |tokens|, Initial);
          return TypeError;
        }
        ancestors := Adopt(ancestors, [tree.value]);
        tree := Some(Empty);
      } else if Is(token, ')') {
        var numeric := i + 1 < |tokens| && IsNumeric(tokens[i + 1]);
        if tree.None? || ancestors == Bottom {
          if numeric {
            ExecTrans(IsNumeric, tokens, 0, i + 1, |tokens|, Initial);
            return TypeError;
          }
          tree := None;
        } else {
          var node := Close(ancestors.top, tree.value);
          ancestors := ancestors.below;
          if numeric {
            node := node.(confidence := Some(tokens[i + 1]));
          }
          tree := Some(node);
        }
      } else if !Is(token, ':') && !Is(token, ';') && FollowsDelimiter(tokens, i) {
        if tree.None? {
          ExecTrans(IsNumeric, tokens, 0, i + 1, |tokens|, Initial);
          return TypeError;
        }
        tree := Some(tree.value.(name := Some(token)));
      }
      i := i + 1;
    }
    r := Done(tree);
  }

  /** What a token does to the bracket depth. */
  function Delta(tok: string): int {
    if Is(tok, '(') then 1 else if Is(tok, ')') then -1 else 0
  }

  /** Open brackets minus closing brackets among the tokens. */
  function Depth(toks: seq<string>): int {
    if toks == [] then 0 else Depth(toks[..|toks| - 1]) + Delta(toks[|toks| - 1])
  }

  /** No prefix of the tokens closes more brackets than it opened. */
  predicate NeverNegative(toks: seq<string>) {
    forall j :: 0 <= j <= |toks| ==> Depth(toks[..j]) >= 0
  }

  /** An undefined cursor stays undefined or throws. */
  lemma {:induction false} UndefinedStays(num: string -> bool, toks: seq<string>, i: nat, j: nat)
    requires i <= j <= |toks|
    ensures Exec(num, toks, i, j, Undefined) == Done(Undefined) || Exec(num, toks, i, j, Undefined).TypeError?
    decreases j - i
  {
    if i < j { UndefinedStays(num, toks, i + 1, j); }
  }

  /** A step that keeps the cursor defined pushes on `(`, pops on `)` and
      keeps the stack height otherwise. */
  lemma StepHeight(num: string -> bool, toks: seq<string>, i: nat, st: State)
    requires i < |toks| && Step(num, toks, i, st).Done? && Step(num, toks, i, st).value.Open?
    ensures st.Open? && Height(Step(num, toks, i, st).value.ancestors) == Height(st.ancestors) + Delta(toks[i])
  {
  }

  lemma DepthPrefix(toks: seq<string>, k: nat)
    requires 0 < k <= |toks|
    ensures Depth(toks[..k]) == Depth(toks[..k - 1]) + Delta(toks[k - 1])
  {
    assert toks[..k][..k - 1] == toks[..k - 1];
  }

  lemma NeverNegativeExtend(toks: seq<string>, k: nat)
    requires 0 < k <= |toks| && NeverNegative(toks[..k - 1]) && Depth(toks[..k]) >= 0
    ensures NeverNegative(toks[..k])
  {
    assert forall j :: 0 <= j <= k - 1 ==> toks[..k][..j] == toks[..k - 1][..j];
    assert toks[..k][..k] == toks[..k];
  }

  /** While the cursor is defined, the stack holds one node per bracket still
      open, and no bracket was closed that had not been opened. */
  lemma {:induction false} StackTracksDepth(num: string -> bool, toks: seq<string>, k: nat)
    requires k <= |toks|
    ensures Exec(num, toks, 0, k, Initial).Done? && Exec(num, toks, 0, k, Initial).value.Open? ==>
      Height(Exec(num, toks, 0, k, Initial).value.ancestors) == Depth(toks[..k]) && NeverNegative(toks[..k])
    decreases k
  {
    if k == 0 {
      assert toks[..0] == [];
      assert forall j :: 0 <= j <= 0 ==> toks[..0][..j] == [];
    } else if Exec(num, toks, 0, k, Initial).Done? && Exec(num, toks, 0, k, Initial).value.Open? {
      StackTracksDepth(num, toks, k - 1);
      ExecTrans(num, toks, 0, k - 1, k, Initial);
      var st := Exec(num, toks, 0, k - 1, Initial).value;
      ExecNext(num, toks, k - 1, st);
      StepHeight(num, toks, k - 1, st);
      DepthPrefix(toks, k);
      NeverNegativeExtend(toks, k);
    }
  }

  /** A text token is none of the tokens the switch singles out. */
  lemma TextIsNoDelimiter(t: string)
    requires IsText(t)
    ensures !Is(t, '(') && !Is(t, ')') && !Is(t, ',') && !Is(t, ':') && !Is(t, ';')
  {
    if |t| == 1 { assert !IsDelim(t[0]); }
  }

  /** On the output of the split an undefined cursor is met by a name at
      once (the split puts a text after every `)`), so it throws at the next
      step. */
  lemma {:induction false} UndefinedIsTransient(num: string -> bool, toks: seq<string>, k: nat)
    requires Alternating(toks) && k <= |toks|
    requires Exec(num, toks, 0, k, Initial) == Done(Undefined)
    ensures k < |toks| && Exec(num, toks, 0, k + 1, Initial) == TypeError
    decreases k
  {
    assert k > 0;
    var prev := Exec(num, toks, 0, k - 1, Initial);
    ExecTrans(num, toks, 0, k - 1, k, Initial);
    assert prev.Done?;
    if prev.value == Undefined {
      UndefinedIsTransient(num, toks, k - 1);
      assert false;
    }
    ExecNext(num, toks, k - 1, prev.value);
    StepToUndefined(num, toks, k - 1, prev.value);
    AlternatingAt(toks, k - 1);
    AlternatingAt(toks, k);
    TextIsNoDelimiter(toks[k]);
    ExecNext(num, toks, k, Undefined);
  }

  /** Only a `)` makes a defined cursor undefined. */
  lemma StepToUndefined(num: string -> bool, toks: seq<string>, i: nat, st: State)
    requires i < |toks| && st.Open? && Step(num, toks, i, st) == Done(Undefined)
    ensures Is(toks[i], ')')
  {
  }

  /** On the output of the split, once the cursor is not a defined node the
      whole parse throws. */
  lemma ThrowsUnlessOpen(num: string -> bool, toks: seq<string>, k: nat)
    requires Alternating(toks) && k <= |toks|
    requires !(Exec(num, toks, 0, k, Initial).Done? && Exec(num, toks, 0, k, Initial).value.Open?)
    ensures Parse(num, toks) == TypeError
  {
    if Exec(num, toks, 0, k, Initial).TypeError? {
      ExecTrans(num, toks, 0, k, |toks|, Initial);
    } else {
      UndefinedIsTransient(num, toks, k);
      ExecTrans(num, toks, 0, k + 1, |toks|, Initial);
    }
  }

  /** parseNewick never returns undefined for a string: it returns a node or
      throws. */
  lemma ParseNewickNeverUndefined(s: string)
    ensures ParseNewick(s) != Done(None)
  {
    var toks := Tokenize(s);
    TokenizeAlternates(s);
    if Exec(IsNumeric, toks, 0, |toks|, Initial) == Done(Undefined) {
      UndefinedIsTransient(IsNumeric, toks, |toks|);
    }
  }

  /** A `)` with no matching `(` before it makes parseNewick throw. */
  lemma UnmatchedCloseThrows(s: string, i: nat)
    requires i <= |Tokenize(s)| && Depth(Tokenize(s)[..i]) < 0
    ensures ParseNewick(s) == TypeError
  {
    var toks := Tokenize(s);
    TokenizeAlternates(s);
    StackTracksDepth(IsNumeric, toks, i);
    ThrowsUnlessOpen(IsNumeric, toks, i);
  }

  /** A `,` outside every bracket makes parseNewick throw. */
  lemma TopLevelCommaThrows(s: string, i: nat)
    requires i < |Tokenize(s)| && Tokenize(s)[i] == "," && Depth(Tokenize(s)[..i]) == 0
    ensures ParseNewick(s) == TypeError
  {
    var toks := Tokenize(s);
    TokenizeAlternates(s);
    StackTracksDepth(IsNumeric, toks, i);
    if Exec(IsNumeric, toks, 0, i, Initial).Done? && Exec(IsNumeric, toks, 0, i, Initial).value.Open? {
      ExecNext(IsNumeric, toks, i, Exec(IsNumeric, toks, 0, i, Initial).value);
      ThrowsUnlessOpen(IsNumeric, toks, i + 1);
    } else {
      ThrowsUnlessOpen(IsNumeric, toks, i);
    }
  }
}
