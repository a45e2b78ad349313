/** The pieces of JavaScript string semantics that layout.js relies on: the
    `\s` character class of its split pattern, and the `isNaN` test it applies
    to a token (a string is NaN exactly when StringToNumber of ECMA-262,
    section 7.1.4.1.1, rejects it). */
module JsText {

  datatype Option<T> = None | Some(value: T)

  /** The characters of `\s`: WhiteSpace and LineTerminator of ECMA-262
      (the space separators of Unicode category Zs written out). The same set
      is trimmed by StringToNumber. */
  predicate IsSpace(c: char) {
    var n := c as int;
    n == 0x09 || n == 0x0A || n == 0x0B || n == 0x0C || n == 0x0D || n == 0x20
    || n == 0xA0 || n == 0x1680 || (0x2000 <= n <= 0x200A) || n == 0x2028
    || n == 0x2029 || n == 0x202F || n == 0x205F || n == 0x3000 || n == 0xFEFF
  }

  /** `s` with its leading spaces removed. */
  function TrimStart(s: string): (r: string)
    ensures |r| <= |s| && r == s[|s| - |r|..]
    ensures r == "" || !IsSpace(r[0])
  {
    if s != "" && IsSpace(s[0]) then TrimStart(s[1..]) else s
  }

  /** What TrimStart removes is spaces. (Kept apart from the function's
      contract: a space test is a long disjunction, costly to have in scope.) */
  lemma {:induction false} TrimStartRemovesSpaces(s: string)
    ensures forall k :: 0 <= k < |s| - |TrimStart(s)| ==> IsSpace(s[k])
    decreases |s|
  {
    if s != "" && IsSpace(s[0]) {
      TrimStartRemovesSpaces(s[1..]);
    }
  }

  /** `s` with its trailing spaces removed. */
  function TrimEnd(s: string): (r: string)
    ensures |r| <= |s| && r == s[..|r|]
    ensures r == "" || !IsSpace(r[|r| - 1])
  {
    if s != "" && IsSpace(s[|s| - 1]) then TrimEnd(s[..|s| - 1]) else s
  }

  /** What TrimEnd removes is spaces. */
  lemma {:induction false} TrimEndRemovesSpaces(s: string)
    ensures forall k :: |TrimEnd(s)| <= k < |s| ==> IsSpace(s[k])
    decreases |s|
  {
    if s != "" && IsSpace(s[|s| - 1]) {
      TrimEndRemovesSpaces(s[..|s| - 1]);
    }
  }

  predicate IsDigit(c: char) { '0' <= c <= '9' }

  predicate AllDigits(s: string) { forall k :: 0 <= k < |s| ==> IsDigit(s[k]) }

  predicate AllIn(s: string, alphabet: string) { forall k :: 0 <= k < |s| ==> s[k] in alphabet }

  /** Position of the first `c` in `s`, or |s|. */
  function IndexOf(s: string, c: char): (k: nat)
    ensures k <= |s|
    ensures forall j :: 0 <= j < k ==> s[j] != c
    ensures k < |s| ==> s[k] == c
  {
    if s == "" then 0 else if s[0] == c then 0 else 1 + IndexOf(s[1..], c)
  }

  /** DecimalDigits, optionally with a `.` and a fraction; at least one digit. */
  predicate IsMantissa(m: string) {
    var d := IndexOf(m, '.');
    if d == |m| then m != "" && AllDigits(m)
    else AllDigits(m[..d]) && AllDigits(m[d + 1..]) && (d > 0 || d + 1 < |m|)
  }

  /** SignedInteger: an optional sign, then at least one digit. */
  predicate IsSignedInteger(x: string) {
    if x != "" && (x[0] == '+' || x[0] == '-') then x[1..] != "" && AllDigits(x[1..])
    else x != "" && AllDigits(x)
  }

  /** StrUnsignedDecimalLiteral. */
  predicate IsUnsignedDecimal(t: string) {
    if t == "Infinity" then true
    else
      var e := if IndexOf(t, 'e') <= IndexOf(t, 'E') then IndexOf(t, 'e') else IndexOf(t, 'E');
      IsMantissa(t[..e]) && (e == |t| || IsSignedInteger(t[e + 1..]))
  }

  /** StrDecimalLiteral: an optional sign before StrUnsignedDecimalLiteral. */
  predicate IsDecimal(t: string) {
    if t != "" && (t[0] == '+' || t[0] == '-') then IsUnsignedDecimal(t[1..]) else IsUnsignedDecimal(t)
  }

  /** NonDecimalIntegerLiteral: 0x.., 0o.., 0b.. with at least one digit and no sign. */
  predicate IsNonDecimalInteger(t: string) {
    |t| >= 3 && t[0] == '0' &&
    ((t[1] in "xX" && AllIn(t[2..], "0123456789abcdefABCDEF")) ||
     (t[1] in "oO" && AllIn(t[2..], "01234567")) ||
     (t[1] in "bB" && AllIn(t[2..], "01")))
  }

  /** `!isNaN(s)` for a string `s`: after trimming spaces the string is empty
      (which converts to 0) or a numeric literal. */
  predicate IsNumeric(s: string) {
    var t := TrimEnd(TrimStart(s));
    t == "" || IsNonDecimalInteger(t) || IsDecimal(t)
  }

  /** The empty token, which the parser meets after every `)` that is
      directly followed by a delimiter, counts as a number. */
  lemma EmptyIsNumeric()
    ensures IsNumeric("")
  {
  }

  lemma NumeralIsNumeric()
    ensures IsNumeric("0.95")
  {
    var s := "0.95";
    assert !IsSpace(s[0]) && !IsSpace(s[3]);
    assert TrimStart(s) == s;
    assert TrimEnd(s) == s;
    assert IndexOf(s, 'e') == 4 && IndexOf(s, 'E') == 4;
    assert IndexOf(s, '.') == 1;
    assert AllDigits(s[..1]) && AllDigits(s[2..]);
  }

  lemma LabelIsNotNumeric()
    ensures !IsNumeric("foo")
  {
    var s := "foo";
    assert !IsSpace(s[0]) && !IsSpace(s[2]);
    assert TrimStart(s) == s;
    assert TrimEnd(s) == s;
    assert IndexOf(s, 'e') == 3 && IndexOf(s, 'E') == 3;
    assert IndexOf(s, '.') == 3;
    assert !IsDigit(s[0]);
  }
}
