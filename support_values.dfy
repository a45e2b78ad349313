/** Support values: the confidence parseNewick stores on a clade and the
    layout later turns into an edge length. parseNewick stores the token
    after every `)` that `!isNaN` accepts, and `!isNaN("")` holds, so the
    empty text after the `)` of an unlabelled inner clade is stored too;
    parseFloat makes NaN of it, and the edge above that clade gets the
    scaled NaN instead of the default length. The corrected parse stores
    only tokens that parseFloat reads as a number. */
module SupportValues {
  import opened JsText
  import opened Tokenizer
  import opened NewickParser
  import opened NewickRoundTrip
  import opened LayoutAdapter

  /** A token that `!isNaN` accepts and from which parseFloat reads a
      number: a numeric literal, not the empty (or all-space) text. */
  predicate IsNumber(s: string) {
    IsNumeric(s) && TrimEnd(TrimStart(s)) != ""
  }

  /** parseNewick with the confidence test the layout needs. */
  function ParseNewickStrict(s: string): Outcome<Option<Tree>> {
    Parse(IsNumber, Tokenize(s))
  }

  /** Every confidence stored in `t` passes `num`. */
  predicate Supported(num: string -> bool, t: Tree)
    decreases t
  {
    (t.confidence.Some? ==> num(t.confidence.value)) &&
    (t.children.Present? ==> forall k :: 0 <= k < |t.children.items| ==> Supported(num, t.children.items[k]))
  }

  predicate FrameSupported(num: string -> bool, f: Frame) {
    (f.confidence.Some? ==> num(f.confidence.value)) &&
    forall k :: 0 <= k < |f.closed| ==> Supported(num, f.closed[k])
  }

  predicate StackSupported(num: string -> bool, s: Stack) {
    s.Push? ==> FrameSupported(num, s.top) && StackSupported(num, s.below)
  }

  predicate StateSupported(num: string -> bool, st: State) {
    st.Open? ==> Supported(num, st.cursor) && StackSupported(num, st.ancestors)
  }

  /** One iteration stores only confidences that pass `num`. */
  lemma StepSupported(num: string -> bool, toks: seq<string>, i: nat, st: State)
    requires i < |toks| && StateSupported(num, st)
    ensures Step(num, toks, i, st).Done? ==> StateSupported(num, Step(num, toks, i, st).value)
  {
    var tok := toks[i];
    if Is(tok, '(') || Is(tok, ',') {
      assert Supported(num, Empty);
    } else if Is(tok, ')') {
      if st.Open? && st.ancestors.Push? {
        var p := Close(st.ancestors.top, st.cursor);
        assert Supported(num, p) by {
          var kids := st.ancestors.top.closed + [st.cursor];
          assert forall k :: 0 <= k < |kids| ==> Supported(num, kids[k]);
        }
      }
    } else if st.Open? {
      assert Supported(num, st.cursor.(name := Some(tok)));
    }
  }

  lemma {:induction false} ExecSupported(num: string -> bool, toks: seq<string>, i: nat, j: nat, st: State)
    requires i <= j <= |toks| && StateSupported(num, st)
    ensures Exec(num, toks, i, j, st).Done? ==> StateSupported(num, Exec(num, toks, i, j, st).value)
    decreases j - i
  {
    if i < j {
      StepSupported(num, toks, i, st);
      if Step(num, toks, i, st).Done? {
        ExecSupported(num, toks, i + 1, j, Step(num, toks, i, st).value);
      }
    }
  }

  /** Whatever the test, every confidence of the parsed tree passes it. */
  lemma ParseSupported(num: string -> bool, toks: seq<string>)
    ensures Parse(num, toks).Done? && Parse(num, toks).value.Some? ==> Supported(num, Parse(num, toks).value.value)
  {
    assert Supported(num, Empty);
    ExecSupported(num, toks, 0, |toks|, Initial);
  }

  /** The corrected parse: every confidence it stores is a number, so the
      layout scales a number for every edge that has one. */
  lemma ParseNewickStrictNumbers(s: string)
    ensures ParseNewickStrict(s).Done? && ParseNewickStrict(s).value.Some? ==>
      Supported(IsNumber, ParseNewickStrict(s).value.value)
  {
    ParseSupported(IsNumber, Tokenize(s));
  }

  /** The token at position k follows a `)`: it is the one the `)` branch
      tests as a confidence. */
  predicate AfterClose(toks: seq<string>, k: int) {
    0 < k < |toks| && Is(toks[k - 1], ')')
  }

  /** The corrected parse agrees with parseNewick whenever every token
      after a `)` that `!isNaN` accepts is a number: the two differ only
      where the token after a `)` is empty or blank. */
  lemma StrictAgrees(s: string)
    requires forall k :: AfterClose(Tokenize(s), k) ==> (IsNumeric(Tokenize(s)[k]) ==> IsNumber(Tokenize(s)[k]))
    ensures ParseNewickStrict(s) == ParseNewick(s)
  {
    var toks := Tokenize(s);
    assert forall k :: AfterClose(toks, k) ==> IsNumber(toks[k]) == IsNumeric(toks[k]);
    ExecAgrees(IsNumber, IsNumeric, toks, 0, |toks|, Initial);
  }

  lemma {:induction false} ExecAgrees(num1: string -> bool, num2: string -> bool, toks: seq<string>, i: nat, j: nat, st: State)
    requires i <= j <= |toks|
    requires forall k :: AfterClose(toks, k) ==> num1(toks[k]) == num2(toks[k])
    ensures Exec(num1, toks, i, j, st) == Exec(num2, toks, i, j, st)
    decreases j - i
  {
    if i < j {
      if Is(toks[i], ')') && i + 1 < |toks| {
        assert AfterClose(toks, i + 1);
      }
      StepAgrees(num1, num2, toks, i, st);
      var s1 := Step(num1, toks, i, st);
      if s1.Done? {
        ExecAgrees(num1, num2, toks, i + 1, j, s1.value);
      }
    }
  }

  /** An iteration consults the test only on the token after a `)`. */
  lemma StepAgrees(num1: string -> bool, num2: string -> bool, toks: seq<string>, i: nat, st: State)
    requires i < |toks|
    requires Is(toks[i], ')') && i + 1 < |toks| ==> num1(toks[i + 1]) == num2(toks[i + 1])
    ensures Step(num1, toks, i, st) == Step(num2, toks, i, st)
  {
    if Is(toks[i], ')') {
      assert ConfidenceAhead(num1, toks, i) == ConfidenceAhead(num2, toks, i);
    }
  }

  /** The premise of StrictAgrees holds of `(A,B)0.95;`, whose split begins
      and ends with the empty text: only the token after the `)` is tested. */
  lemma StrictAgreesApplies(s: string)
    requires s == "(A,B)0.95;"
    ensures ParseNewickStrict(s) == ParseNewick(s)
  {
    var c := Clade([Leaf("A", None), Leaf("B", None)], "0.95", None);
    ConfidenceText(c);
    TokenizeText(c);
    ConfidenceString(Text(c), s);
    var toks := Tokenize(s);
    assert Emit(c) == ["", "(", "A", ",", "B", ")", "0.95"];
    NumberIsNumber();
    forall k | AfterClose(toks, k)
      ensures IsNumeric(toks[k]) ==> IsNumber(toks[k])
    {
      assert k == 6;
    }
    StrictAgrees(s);
  }

  lemma ConfidenceString(t: string, s: string)
    requires t == "(A,B)0.95" && s == "(A,B)0.95;"
    ensures t + ";" == s
  {
  }

  /** "0.95" is a number. */
  lemma NumberIsNumber()
    ensures IsNumber("0.95")
  {
    NumeralIsNumeric();
    NumeralTrimmed("0.95");
  }

  lemma NumeralTrimmed(s: string)
    requires s == "0.95"
    ensures TrimEnd(TrimStart(s)) == s
  {
    assert !IsSpace(s[0]) && !IsSpace(s[3]);
    assert TrimStart(s) == s;
  }

  /** `((A,B),C)`: a clade without a label holding one without a label. */
  function Nested(): Newick {
    Clade([Clade([Leaf("A", None), Leaf("B", None)], "", None), Leaf("C", None)], "", None)
  }

  lemma InnerText(n: Newick)
    requires n == Nested()
    ensures WellFormed(n.kids[0]) && Concat(Emit(n.kids[0])) == "(A,B)"
  {
    TwoLeaves(n.kids[0]);
    CladeText(n.kids[0], "A,B");
  }

  lemma NestedKids(n: Newick)
    requires n == Nested()
    ensures WellFormed(n) && Concat(EmitKids(n, 0)) == "(A,B),C"
  {
    InnerText(n);
    assert IsText("C");
    assert WellFormed(n.kids[1]);
    var ei := Emit(n.kids[0]);
    assert EmitKids(n, 1) == ["C"];
    assert EmitKids(n, 0) == ei + [",", "C"];
    ConcatAppend(ei, [",", "C"]);
    Pair(",", "C");
  }

  lemma NestedText(n: Newick)
    requires n == Nested()
    ensures WellFormed(n) && Text(n) + ";" == "((A,B),C);"
  {
    NestedKids(n);
    CladeText(n, "(A,B),C");
    NestedString(Text(n));
  }

  lemma NestedString(t: string)
    requires t == "(" + "(A,B),C" + ")" + ""
    ensures t + ";" == "((A,B),C);"
  {
  }

  /** The node parseNewick builds for `((A,B),C)`: the inner clade has a
      confidence exactly when the test accepts the empty text. */
  lemma NestedTree(num: string -> bool)
    ensures var t := ToTree(num, Nested());
      t.children.Present? && |t.children.items| == 2 &&
      t.children.items[0].confidence == (if num("") then Some("") else None)
  {
    var n := Nested();
    var t := ToTree(num, n);
    assert t.children.items[0] == ToTree(num, n.kids[0]);
  }

  lemma NestedParse(s: string)
    requires s == "((A,B),C);"
    ensures ParseNewick(s) == Done(Some(ToTree(IsNumeric, Nested())))
  {
    NestedText(Nested());
    ParseNewickText(Nested());
  }

  /** `!isNaN` accepts the empty text, from which parseFloat reads no number. */
  lemma EmptyIsNotNumber()
    ensures IsNumeric("") && !IsNumber("")
  {
    EmptyIsNumeric();
  }

  /** As written: parseNewick stores the empty text after the inner `)` of
      `((A,B),C);` as the inner clade's confidence. The text is not a
      number (parseFloat gives NaN), and the edge above the clade is the
      scale applied to it rather than the default length. */
  lemma NestedCladeGetsEmptyConfidence(s: string, scale: string -> real, c: BranchLength)
    requires s == "((A,B),C);"
    ensures ParseNewick(s).Done? && ParseNewick(s).value.Some?
    ensures var t := ParseNewick(s).value.value;
      t.children.Present? && |t.children.items| == 2 &&
      t.children.items[0].confidence == Some("") && !IsNumber("") &&
      !Supported(IsNumber, t) &&
      EdgeLength(t.children.items[0].confidence, scale, c) == scale("")
  {
    var t := ToTree(IsNumeric, Nested());
    NestedParse(s);
    EmptyIsNotNumber();
    NestedTree(IsNumeric);
    assert !Supported(IsNumber, t.children.items[0]);
  }

  /** Corrected: the inner clade of `((A,B),C);` has no confidence, so its
      edge has the default length. */
  lemma NestedCladeStrict(s: string, scale: string -> real, c: BranchLength)
    requires s == "((A,B),C);"
    ensures ParseNewickStrict(s).Done? && ParseNewickStrict(s).value.Some?
    ensures var t := ParseNewickStrict(s).value.value;
      t.children.Present? && |t.children.items| == 2 &&
      t.children.items[0].confidence == None &&
      EdgeLength(t.children.items[0].confidence, scale, c) == c.default
  {
    NestedText(Nested());
    TokenizeText(Nested());
    ParseEmitted(IsNumber, Nested());
    NestedTree(IsNumber);
  }
}
