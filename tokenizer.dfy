/** The tokeniser of parseNewick: `s.split` with the regular expression that
    matches optional spaces, one of the delimiters `;` `(` `)` `,` `:` captured
    as a group, and optional spaces. Because the pattern has one capturing
    group, every match contributes the delimiter it captured, so the result
    alternates between the text found between two matches (at even positions)
    and a one-character delimiter (at odd positions). Spaces are removed only
    next to a delimiter. */
module Tokenizer {
  import opened JsText

  predicate IsDelim(c: char) { c == ';' || c == '(' || c == ')' || c == ',' || c == ':' }

  /** A piece of text between two delimiters. */
  predicate IsText(t: string) { forall k :: 0 <= k < |t| ==> !IsDelim(t[k]) }

  predicate IsDelimToken(t: string) { |t| == 1 && IsDelim(t[0]) }

  /** Text, delimiter, text, ..., text. */
  predicate Alternating(toks: seq<string>)
    decreases |toks|
  {
    |toks| >= 1 && IsText(toks[0]) &&
    (|toks| == 1 || (|toks| >= 3 && IsDelimToken(toks[1]) && Alternating(toks[2..])))
  }

  /** Where texts and delimiters stand in an alternating list. */
  lemma {:induction false} AlternatingAt(toks: seq<string>, k: nat)
    requires Alternating(toks) && k < |toks|
    ensures |toks| % 2 == 1
    ensures k % 2 == 0 ==> IsText(toks[k])
    ensures k % 2 == 1 ==> IsDelimToken(toks[k])
    decreases |toks|
  {
    if |toks| > 1 {
      AlternatingAt(toks[2..], if k >= 2 then k - 2 else 0);
    }
  }

  /** The split, read left to right. `cur` is the text gathered since the last
      match and `skip` says that spaces are still being skipped after the last
      delimiter. The leftmost match of the pattern is the first delimiter
      together with the run of spaces just before it (the greedy `\s*` can
      start no earlier, since any earlier start meets a character that is
      neither a space nor a delimiter) and every space after it: so the text
      gathered up to a delimiter is emitted without its trailing spaces, the
      captured delimiter follows, and the spaces after the delimiter are
      dropped. With no match left, the rest of the string, spaces and all, is
      the last piece. */
  function Lex(s: string, cur: string, skip: bool): seq<string>
    decreases |s|
  {
    if s == "" then [cur]
    else if IsDelim(s[0]) then [TrimEnd(cur), [s[0]]] + Lex(s[1..], "", true)
    else if skip && IsSpace(s[0]) then Lex(s[1..], "", true)
    else Lex(s[1..], cur + [s[0]], false)
  }

  // `s.split(/\s*(;|\(|\)|,|:)\s*/)`
  function Tokenize(s: string): seq<string> {
    Lex(s, "", false)
  }

  lemma TrimEndOfText(t: string)
    requires IsText(t)
    ensures IsText(TrimEnd(t))
  {
    var r := TrimEnd(t);
    assert forall k :: 0 <= k < |r| ==> r[k] == t[k];
  }

  lemma {:induction false} LexAlternates(s: string, cur: string, skip: bool)
    requires IsText(cur)
    ensures Alternating(Lex(s, cur, skip))
    decreases |s|
  {
    if s != "" {
      if IsDelim(s[0]) {
        LexAlternates(s[1..], "", true);
        TrimEndOfText(cur);
        var toks := Lex(s, cur, skip);
        assert toks[2..] == Lex(s[1..], "", true);
      } else if skip && IsSpace(s[0]) {
        LexAlternates(s[1..], "", true);
      } else {
        var next := cur + [s[0]];
        assert forall k :: 0 <= k < |cur| ==> next[k] == cur[k];
        LexAlternates(s[1..], next, false);
      }
    }
  }

  /** The pieces of the split alternate between texts and delimiters. */
  lemma TokenizeAlternates(s: string)
    ensures Alternating(Tokenize(s))
  {
    LexAlternates(s, "", false);
  }

  /** The input string of a token list. */
  function Concat(toks: seq<string>): string {
    if toks == [] then "" else toks[0] + Concat(toks[1..])
  }

  /** The delimiter characters of `s`, in order, each as a one-character token. */
  function DelimChars(s: string): seq<string> {
    if s == "" then [] else (if IsDelim(s[0]) then [[s[0]]] else []) + DelimChars(s[1..])
  }

  /** The tokens at odd positions. */
  function DelimTokens(toks: seq<string>): seq<string> {
    if |toks| < 2 then [] else [toks[1]] + DelimTokens(toks[2..])
  }

  /** A text with no space at either end. */
  predicate Clean(t: string) {
    IsText(t) && (t == "" || (!IsSpace(t[0]) && !IsSpace(t[|t| - 1])))
  }

  /** Every text of the list (every other token) is clean. */
  predicate CleanTexts(toks: seq<string>)
    decreases |toks|
  {
    |toks| >= 1 ==> Clean(toks[0]) && (|toks| >= 2 ==> CleanTexts(toks[2..]))
  }

  lemma {:induction false} LexKeepsDelims(s: string, cur: string, skip: bool)
    ensures DelimTokens(Lex(s, cur, skip)) == DelimChars(s)
    decreases |s|
  {
    if s != "" {
      if IsDelim(s[0]) {
        LexKeepsDelims(s[1..], "", true);
        var toks := Lex(s, cur, skip);
        assert toks[1] == [s[0]] && toks[2..] == Lex(s[1..], "", true);
      } else if skip && IsSpace(s[0]) {
        LexKeepsDelims(s[1..], "", true);
      } else {
        LexKeepsDelims(s[1..], cur + [s[0]], false);
      }
    }
  }

  /** Splitting keeps every delimiter of the input, in order, and adds none. */
  lemma TokenizeKeepsDelims(s: string)
    ensures DelimTokens(Tokenize(s)) == DelimChars(s)
  {
    LexKeepsDelims(s, "", false);
  }

  /** A text met while gathering is gathered whole. */
  lemma {:induction false} LexText(t: string, r: string, cur: string)
    requires IsText(t)
    ensures Lex(t + r, cur, false) == Lex(r, cur + t, false)
    decreases |t|
  {
    if t == "" {
      assert t + r == r && cur + t == cur;
    } else {
      var s := t + r;
      assert s[0] == t[0] && s[1..] == t[1..] + r;
      assert IsText(t[1..]) by {
        assert forall k :: 0 <= k < |t| - 1 ==> t[1..][k] == t[k + 1];
      }
      LexText(t[1..], r, cur + [t[0]]);
      assert cur + [t[0]] + t[1..] == cur + t;
    }
  }

  /** A clean text at the start of a piece is gathered whole, whether or not
      spaces are being skipped. */
  lemma LexCleanText(t: string, r: string, skip: bool)
    requires Clean(t) && t != ""
    ensures Lex(t + r, "", skip) == Lex(r, t, false)
  {
    var s := t + r;
    assert s[0] == t[0] && s[1..] == t[1..] + r;
    assert IsText(t[1..]) by {
      assert forall k :: 0 <= k < |t| - 1 ==> t[1..][k] == t[k + 1];
    }
    assert !IsDelim(t[0]) && !IsSpace(t[0]);
    assert "" + [t[0]] == [t[0]];
    LexText(t[1..], r, [t[0]]);
    assert [t[0]] + t[1..] == t;
  }

  /** A delimiter ends the piece gathered so far. */
  lemma LexDelim(c: char, r: string, cur: string, skip: bool)
    requires IsDelim(c)
    ensures Lex([c] + r, cur, skip) == [TrimEnd(cur), [c]] + Lex(r, "", true)
  {
    assert ([c] + r)[0] == c && ([c] + r)[1..] == r;
  }

  lemma ConcatUnfold(toks: seq<string>)
    requires toks != []
    ensures Concat(toks) == toks[0] + Concat(toks[1..])
  {
  }

  /** The text of an alternating list of three or more tokens, cut after its
      first delimiter. */
  lemma ConcatCons(toks: seq<string>)
    requires Alternating(toks) && |toks| > 1
    ensures toks[1] == [toks[1][0]]
    ensures Concat(toks) == toks[0] + ([toks[1][0]] + Concat(toks[2..]))
  {
    var d := toks[1];
    assert IsDelimToken(d);
    assert d == [d[0]];
    ConcatUnfold(toks);
    ConcatUnfold(toks[1..]);
    assert toks[1..][1..] == toks[2..];
  }

  /** The first piece of a clean list, whatever the skipping state. */
  lemma LexFirst(t: string, r: string, skip: bool)
    requires Clean(t)
    ensures Lex(t + r, "", skip) == Lex(r, t, false) || (t == "" && Lex(t + r, "", skip) == Lex(r, "", skip))
  {
    if t == "" {
      assert t + r == r;
    } else {
      LexCleanText(t, r, skip);
    }
  }

  /** Round trip, in either skipping state: the split of the text of a clean
      alternating token list is that list. */
  lemma {:induction false} LexConcat(toks: seq<string>, skip: bool)
    requires Alternating(toks) && CleanTexts(toks)
    ensures Lex(Concat(toks), "", skip) == toks
    decreases |toks|
  {
    var t := toks[0];
    assert Clean(t);
    if |toks| == 1 {
      ConcatUnfold(toks);
      assert Concat(toks) == t + "";
      LexFirst(t, "", skip);
    } else {
      var c := toks[1][0];
      var x := Concat(toks[2..]);
      ConcatCons(toks);
      LexFirst(t, [c] + x, skip);
      LexDelim(c, x, t, if t == "" then skip else false);
      assert TrimEnd(t) == t;
      LexConcat(toks[2..], true);
      assert toks == [t, [c]] + toks[2..];
    }
  }

  /** Round trip: splitting the text of a clean alternating token list gives
      back that list. */
  lemma TokenizeConcat(toks: seq<string>)
    requires Alternating(toks) && CleanTexts(toks)
    ensures Tokenize(Concat(toks)) == toks
  {
    LexConcat(toks, false);
  }

  lemma Reassoc<T>(a: seq<T>, b: seq<T>, c: seq<T>)
    ensures a + b + c == a + (b + c)
  {
  }

  lemma {:induction false} ConcatAppend(a: seq<string>, b: seq<string>)
    ensures Concat(a + b) == Concat(a) + Concat(b)
    decreases |a|
  {
    if a == [] {
      assert a + b == b;
    } else {
      assert (a + b)[0] == a[0] && (a + b)[1..] == a[1..] + b;
      ConcatAppend(a[1..], b);
    }
  }

  /** Joining two alternating lists with a delimiter between them keeps the
      alternation and the cleanliness of the texts. */
  lemma {:induction false} JoinAlternating(a: seq<string>, c: char, b: seq<string>)
    requires Alternating(a) && Alternating(b) && IsDelim(c)
    requires CleanTexts(a) && CleanTexts(b)
    ensures Alternating(a + [[c]] + b) && CleanTexts(a + [[c]] + b)
    decreases |a|
  {
    var j := a + [[c]] + b;
    if |a| == 1 {
      assert j[2..] == b;
    } else {
      JoinAlternating(a[2..], c, b);
      assert j[2..] == a[2..] + [[c]] + b;
    }
  }
}
