/** The JavaScript string built-ins the extractor and the list view rely on:
    `trim`, `toLowerCase`, `includes`, `startsWith`, the regular-expression classes
    `\s`, `\d` and `\w`, and decimal conversion of non-negative integers. */
module JsText {

  /** White space as `String.prototype.trim` and the regular-expression class `\s`
      see it: the WhiteSpace and LineTerminator code points of ECMA-262. */
  predicate IsSpace(c: char) {
    || c == ' ' || c == '\t' || c == '\n' || c == '\r' || c == '\U{000B}' || c == '\U{000C}'
    || c == '\U{00A0}' || c == '\U{1680}' || ('\U{2000}' <= c <= '\U{200A}')
    || c == '\U{2028}' || c == '\U{2029}' || c == '\U{202F}' || c == '\U{205F}'
    || c == '\U{3000}' || c == '\U{FEFF}'
  }

  /** `\d` outside Unicode mode: the ASCII digits only. */
  predicate IsDigit(c: char) {
    '0' <= c <= '9'
  }

  predicate IsUpper(c: char) {
    'A' <= c <= 'Z'
  }

  /** `\w` outside Unicode mode; `\b` is a boundary between a word and a non-word character. */
  predicate IsWordChar(c: char) {
    'a' <= c <= 'z' || IsUpper(c) || IsDigit(c) || c == '_'
  }

  predicate AllDigits(s: string) {
    forall i :: 0 <= i < |s| ==> IsDigit(s[i])
  }

  /** Neither starts nor ends with white space. */
  predicate IsTrimmed(s: string) {
    s == [] || (!IsSpace(s[0]) && !IsSpace(s[|s| - 1]))
  }

  predicate AllSpace(s: string) {
    forall i :: 0 <= i < |s| ==> IsSpace(s[i])
  }

  // ---------------------------------------------------------------------------
  // trim

  /** The index of the first character of `s` at or after `k` that is not white space
      (|s| when there is none). */
  function StartFrom(s: string, k: nat): (a: nat)
    requires k <= |s|
    ensures k <= a <= |s|
    ensures forall i :: k <= i < a ==> IsSpace(s[i])
    ensures a < |s| ==> !IsSpace(s[a])
    decreases |s| - k
  {
    if k < |s| && IsSpace(s[k]) then StartFrom(s, k + 1) else k
  }

  /** The index just after the last character of `s[lo..k]` that is not white space
      (`lo` when there is none). */
  function EndFrom(s: string, lo: nat, k: nat): (b: nat)
    requires lo <= k <= |s|
    ensures lo <= b <= k
    ensures forall i :: b <= i < k ==> IsSpace(s[i])
    ensures b > lo ==> !IsSpace(s[b - 1])
    ensures b == lo < k ==> IsSpace(s[lo])
    decreases k
  {
    if k > lo && IsSpace(s[k - 1]) then EndFrom(s, lo, k - 1) else k
  }

  /** `String.prototype.trim`: the slice of `s` left after dropping white space at both ends. */
  function Trim(s: string): (r: string)
    ensures IsTrimmed(r)
    ensures |r| <= |s|
    ensures r == [] <==> AllSpace(s)
    ensures IsTrimmed(s) ==> r == s
  {
    var a := StartFrom(s, 0);
    var b := EndFrom(s, a, |s|);
    assert a < b ==> s[a..b][0] == s[a] && s[a..b][b - a - 1] == s[b - 1];
    assert IsTrimmed(s) && s != [] ==> a == 0 && b == |s|;
    s[a..b]
  }

  /** What `trim` returns is a slice of its argument. */
  lemma TrimIsSlice(s: string)
    ensures Contains(s, Trim(s))
  {
    assert OccursAt(s, Trim(s), StartFrom(s, 0));
  }

  /** `trim` removes white space at the two ends and nothing else: its result is the
      middle of a split of `s` whose outer parts are all white space. */
  lemma TrimDropsOuterSpace(s: string)
    ensures exists a, b :: 0 <= a <= b <= |s| && Trim(s) == s[a..b] && AllSpace(s[..a]) && AllSpace(s[b..])
  {
    var a := StartFrom(s, 0);
    var b := EndFrom(s, a, |s|);
    assert Trim(s) == s[a..b];
    assert AllSpace(s[..a]) && AllSpace(s[b..]);
  }

  /** Conversely, any trimmed middle between two white-space margins is what `trim` returns. */
  lemma TrimOfMargins(s: string, a: nat, b: nat)
    requires a <= b <= |s|
    requires AllSpace(s[..a]) && AllSpace(s[b..])
    requires IsTrimmed(s[a..b])
    ensures Trim(s) == s[a..b]
  {
    assert forall i :: 0 <= i < a ==> s[..a][i] == s[i];
    assert forall i :: b <= i < |s| ==> s[b..][i - b] == s[i];
    if a == b {
      assert AllSpace(s);
    } else {
      assert s[a..b][0] == s[a] && s[a..b][b - a - 1] == s[b - 1];
      var a' := StartFrom(s, 0);
      assert a' == a;
      var b' := EndFrom(s, a, |s|);
      assert b' == b;
    }
  }

  /** The characters of `s` that are not white space, in order. */
  function NonSpace(s: string): (r: string)
    ensures |r| <= |s|
    ensures forall i :: 0 <= i < |r| ==> !IsSpace(r[i])
    ensures r == [] <==> AllSpace(s)
  {
    if s == [] then []
    else if IsSpace(s[0]) then NonSpace(s[1..])
    else [s[0]] + NonSpace(s[1..])
  }

  /** Dropping white space goes piece by piece. */
  lemma {:induction false} NonSpaceConcat(a: string, b: string)
    ensures NonSpace(a + b) == NonSpace(a) + NonSpace(b)
  {
    if a == [] {
      assert a + b == b;
    } else {
      assert (a + b)[0] == a[0] && (a + b)[1..] == a[1..] + b;
      NonSpaceConcat(a[1..], b);
    }
  }

  /** Trimming loses no character that is not white space. */
  lemma NonSpaceTrim(s: string)
    ensures NonSpace(Trim(s)) == NonSpace(s)
  {
    var a := StartFrom(s, 0);
    var b := EndFrom(s, a, |s|);
    var front, middle, back := s[..a], s[a..b], s[b..];
    assert AllSpace(front) && AllSpace(back);
    assert s == front + middle + back;
    NonSpaceConcat(front + middle, back);
    NonSpaceConcat(front, middle);
  }

  // ---------------------------------------------------------------------------
  // toLowerCase

  function LowerChar(c: char): (r: char)
    ensures !IsUpper(r)
    ensures IsSpace(r) <==> IsSpace(c)
    ensures IsWordChar(r) <==> IsWordChar(c)
    ensures IsDigit(r) <==> IsDigit(c)
  {
    if IsUpper(c) then (c as int + 32) as char else c
  }

  /** `toLowerCase` restricted to ASCII letters; every other character is kept. */
  function Lower(s: string): (r: string)
    ensures |r| == |s|
    ensures forall i :: 0 <= i < |s| ==> r[i] == LowerChar(s[i])
  {
    seq(|s|, i requires 0 <= i < |s| => LowerChar(s[i]))
  }

  /** Lowering works character by character from the front. */
  lemma LowerCons(s: string)
    requires s != []
    ensures Lower(s) == [LowerChar(s[0])] + Lower(s[1..])
  {
  }

  /** Lowering and dropping white space can be done in either order. */
  lemma {:induction false} LowerNonSpace(s: string)
    ensures NonSpace(Lower(s)) == Lower(NonSpace(s))
  {
    if s != [] {
      LowerCons(s);
      var l := Lower(s);
      assert l[0] == LowerChar(s[0]) && l[1..] == Lower(s[1..]);
      LowerNonSpace(s[1..]);
      if !IsSpace(s[0]) {
        LowerCons(NonSpace(s));
        assert NonSpace(s)[1..] == NonSpace(s[1..]);
      }
    }
  }

  // ---------------------------------------------------------------------------
  // includes / startsWith

  predicate StartsWith(s: string, prefix: string) {
    |prefix| <= |s| && s[..|prefix|] == prefix
  }

  /** `word` occurs in `s` starting at index `i`. */
  predicate OccursAt(s: string, word: string, i: int) {
    0 <= i && i + |word| <= |s| && s[i..i + |word|] == word
  }

  /** `String.prototype.includes`. */
  predicate Contains(s: string, word: string) {
    exists i :: 0 <= i <= |s| && OccursAt(s, word, i)
  }

  /** An occurrence, checked character by character. */
  lemma OccursByChars(s: string, word: string, i: nat)
    requires i + |word| <= |s|
    requires forall k :: 0 <= k < |word| ==> s[i + k] == word[k]
    ensures OccursAt(s, word, i)
  {
    assert s[i..i + |word|] == word;
  }

  /** A character of `word` that never occurs in `s` rules the word out. */
  lemma AbsentChar(s: string, word: string, j: nat)
    requires j < |word|
    requires forall i :: 0 <= i < |s| ==> s[i] != word[j]
    ensures !Contains(s, word)
  {
    forall i | 0 <= i <= |s| ensures !OccursAt(s, word, i) {
      if i + |word| <= |s| {
        assert s[i..i + |word|][j] == s[i + j];
      }
    }
  }

  /** Two consecutive characters of `word` that never stand together in `s` rule it out. */
  lemma AbsentPair(s: string, word: string)
    requires 2 <= |word|
    requires forall i :: 0 <= i < |s| - 1 ==> !(s[i] == word[0] && s[i + 1] == word[1])
    ensures !Contains(s, word)
  {
    forall i | 0 <= i <= |s| ensures !OccursAt(s, word, i) {
      if i + |word| <= |s| {
        assert s[i..i + |word|][0] == s[i];
        assert s[i..i + |word|][1] == s[i + 1];
      }
    }
  }

  // ---------------------------------------------------------------------------
  // digits and decimal numbers

  /** `s.replace(/[^\d]/g, "")`: the digits of `s`, in order. */
  function KeepDigits(s: string): (r: string)
    ensures AllDigits(r)
    ensures |r| <= |s|
    ensures r == [] <==> forall i :: 0 <= i < |s| ==> !IsDigit(s[i])
    ensures AllDigits(s) ==> r == s
  {
    if s == [] then []
    else if IsDigit(s[0]) then [s[0]] + KeepDigits(s[1..])
    else KeepDigits(s[1..])
  }

  /** The digits of a concatenation are the digits of its parts, in order; with the
      one-character case below this fixes `KeepDigits` completely. */
  lemma {:induction false} KeepDigitsConcat(a: string, b: string)
    ensures KeepDigits(a + b) == KeepDigits(a) + KeepDigits(b)
  {
    if a == [] {
      assert a + b == b;
    } else {
      assert (a + b)[0] == a[0] && (a + b)[1..] == a[1..] + b;
      KeepDigitsConcat(a[1..], b);
    }
  }

  /** One character: a digit is kept, anything else is dropped. */
  lemma KeepDigitsChar(c: char)
    ensures KeepDigits([c]) == if IsDigit(c) then [c] else []
  {
    assert [c][1..] == [];
  }

  function DigitValue(c: char): (d: nat)
    requires IsDigit(c)
    ensures d < 10
  {
    c as int - '0' as int
  }

  function DigitChar(d: nat): (c: char)
    requires d < 10
    ensures IsDigit(c) && DigitValue(c) == d
  {
    ('0' as int + d) as char
  }

  /** The value of a decimal numeral: what `parseInt(digits, 10)` reads from an all-digit string. */
  function DecimalValue(digits: string): nat
    requires AllDigits(digits)
  {
    if digits == [] then 0
    else 10 * DecimalValue(digits[..|digits| - 1]) + DigitValue(digits[|digits| - 1])
  }

  /** `Number.prototype.toString()` for a non-negative integer. */
  function Decimal(n: nat): (r: string)
    ensures r != [] && AllDigits(r)
    ensures r[0] == '0' ==> n == 0
  {
    if n < 10 then [DigitChar(n)] else Decimal(n / 10) + [DigitChar(n % 10)]
  }

  /** Reading back the decimal form of a number gives the number. */
  lemma {:induction false} DecimalRoundTrip(n: nat)
    ensures DecimalValue(Decimal(n)) == n
  {
    if n >= 10 {
      var d := Decimal(n);
      assert d[..|d| - 1] == Decimal(n / 10);
      DecimalRoundTrip(n / 10);
    }
  }
}
