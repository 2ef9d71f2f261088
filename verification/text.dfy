/** The JavaScript string primitives the client relies on, on `seq<char>`:
    `String.prototype.trim`, ASCII case folding (what a regular expression
    with the `i` flag and no `u` flag compares by, and all `toLowerCase`
    needs for the keywords used here), `includes`, and the leftmost match
    of the numeral pattern `\d+(\.\d+)?`. */
module Text {

  import opened Base

  /** The characters `String.prototype.trim` removes: WhiteSpace and
      LineTerminator of ECMAScript (tab, line feed, vertical tab, form feed,
      carriage return, space, no-break space, the Unicode space separators,
      line and paragraph separators, and the byte-order mark). */
  predicate IsSpace(c: char) {
    var n := c as int;
    || n == 0x09 || n == 0x0A || n == 0x0B || n == 0x0C || n == 0x0D
    || n == 0x20 || n == 0xA0 || n == 0x1680
    || (0x2000 <= n <= 0x200A)
    || n == 0x2028 || n == 0x2029 || n == 0x202F || n == 0x205F
    || n == 0x3000 || n == 0xFEFF
  }

  /** `\d` in a JavaScript regular expression: ASCII digits only. */
  predicate IsDigit(c: char) {
    '0' <= c <= '9'
  }

  predicate HasDigit(s: string) {
    exists k :: 0 <= k < |s| && IsDigit(s[k])
  }

  predicate AllDigits(s: string) {
    forall k :: 0 <= k < |s| ==> IsDigit(s[k])
  }

  // ---------------------------------------------------------------- trim

  /** The first position at or after `i` that does not hold white space,
      or `|s|` when there is none. */
  function SkipSpaces(s: string, i: nat): (j: nat)
    requires i <= |s|
    ensures i <= j <= |s|
    ensures forall k :: i <= k < j ==> IsSpace(s[k])
    ensures j == |s| || !IsSpace(s[j])
    decreases |s| - i
  {
    if i < |s| && IsSpace(s[i]) then SkipSpaces(s, i + 1) else i
  }

  /** The end of `s[lo..j]` once its trailing white space is dropped. */
  function BackSpaces(s: string, lo: nat, j: nat): (m: nat)
    requires lo <= j <= |s|
    ensures lo <= m <= j
    ensures forall k :: m <= k < j ==> IsSpace(s[k])
    ensures m == lo || !IsSpace(s[m - 1])
    decreases j
  {
    if j > lo && IsSpace(s[j - 1]) then BackSpaces(s, lo, j - 1) else j
  }

  /** `s.trim()`: the slice of `s` left once every leading and trailing
      space is removed. The result is empty exactly when `s` is all spaces. */
  function Trim(s: string): (r: string)
    ensures var i := SkipSpaces(s, 0);
      && i + |r| <= |s| && r == s[i..i + |r|]
      && (forall k :: 0 <= k < i ==> IsSpace(s[k]))
      && (forall k :: i + |r| <= k < |s| ==> IsSpace(s[k]))
    ensures r == [] || (!IsSpace(r[0]) && !IsSpace(r[|r| - 1]))
    ensures r == [] <==> forall k :: 0 <= k < |s| ==> IsSpace(s[k])
  {
    var i := SkipSpaces(s, 0);
    var j := BackSpaces(s, i, |s|);
    s[i..j]
  }

  /** A string with no space at either end is its own trim. */
  lemma TrimFixed(s: string)
    requires s == [] || (!IsSpace(s[0]) && !IsSpace(s[|s| - 1]))
    ensures Trim(s) == s
  {
  }

  /** Trimming twice is trimming once. */
  lemma TrimIdempotent(s: string)
    ensures Trim(Trim(s)) == Trim(s)
  {
    TrimFixed(Trim(s));
  }

  // ---------------------------------------------------------- case folding

  function LowerChar(c: char): char {
    if 'A' <= c <= 'Z' then (c as int + 32) as char else c
  }

  function UpperChar(c: char): char {
    if 'a' <= c <= 'z' then (c as int - 32) as char else c
  }

  function Lower(s: string): (r: string)
    ensures |r| == |s|
    ensures forall i :: 0 <= i < |s| ==> r[i] == LowerChar(s[i])
  {
    seq(|s|, i requires 0 <= i < |s| => LowerChar(s[i]))
  }

  function Upper(s: string): (r: string)
    ensures |r| == |s|
    ensures forall i :: 0 <= i < |s| ==> r[i] == UpperChar(s[i])
  {
    seq(|s|, i requires 0 <= i < |s| => UpperChar(s[i]))
  }

  /** Folding the upper-cased string gives the folded original: upper and
      lower case spellings of a word are indistinguishable after `Lower`. */
  lemma LowerUpper(s: string)
    ensures Lower(Upper(s)) == Lower(s)
  {
    assert forall i :: 0 <= i < |s| ==> Lower(Upper(s))[i] == Lower(s)[i];
  }

  // ------------------------------------------------------------ substrings

  predicate StartsWith(s: string, p: string) {
    |p| <= |s| && s[..|p|] == p
  }

  /** `s.includes(w)`, scanning left to right. */
  predicate Contains(s: string, w: string)
    decreases |s|
  {
    StartsWith(s, w) || (|s| > 0 && Contains(s[1..], w))
  }

  /** `w` occurs in `s` at position `i`. */
  predicate OccursAt(s: string, w: string, i: int) {
    0 <= i && i + |w| <= |s| && s[i..i + |w|] == w
  }

  /** The scan agrees with the positional definition of a substring. */
  lemma {:induction false} ContainsAt(s: string, w: string)
    ensures Contains(s, w) <==> exists i :: OccursAt(s, w, i)
    decreases |s|
  {
    if StartsWith(s, w) {
      assert OccursAt(s, w, 0);
    } else if |s| > 0 {
      ContainsAt(s[1..], w);
      if Contains(s[1..], w) {
        var i :| OccursAt(s[1..], w, i);
        assert s[i + 1..i + 1 + |w|] == s[1..][i..i + |w|];
        assert OccursAt(s, w, i + 1);
      }
      if exists i :: OccursAt(s, w, i) {
        var i :| OccursAt(s, w, i);
        assert i != 0;
        assert s[1..][i - 1..i - 1 + |w|] == s[i..i + |w|];
        assert OccursAt(s[1..], w, i - 1);
      }
    }
  }

  lemma StartsWithContains(s: string, w: string)
    requires StartsWith(s, w)
    ensures Contains(s, w)
  {
  }

  // --------------------------------------------------------------- numerals

  /** Length of the run of digits at the front of `s` (greedy `\d*`). */
  function DigitRun(s: string): (n: nat)
    ensures n <= |s|
    ensures forall k :: 0 <= k < n ==> IsDigit(s[k])
    ensures n == |s| || !IsDigit(s[n])
    decreases |s|
  {
    if |s| > 0 && IsDigit(s[0]) then 1 + DigitRun(s[1..]) else 0
  }

  /** A numeral as `\d+(\.\d+)?` describes it. */
  predicate IsNumeral(n: string) {
    var a := DigitRun(n);
    && 0 < a
    && (a == |n| || (n[a] == '.' && a + 1 < |n| && AllDigits(n[a + 1..])))
  }

  /** The greedy match of `\d+(\.\d+)?` that starts at the front of `s`:
      every digit of the leading run, then the fraction when a point
      followed by a digit comes next. */
  function NumberAt(s: string): (n: string)
    requires |s| > 0 && IsDigit(s[0])
    ensures IsNumeral(n) && StartsWith(s, n)
    ensures |n| == |s| || !IsDigit(s[|n|])
    ensures '.' !in n ==> !(|n| + 1 < |s| && s[|n|] == '.' && IsDigit(s[|n| + 1]))
  {
    var a := DigitRun(s);
    if a + 1 < |s| && s[a] == '.' && IsDigit(s[a + 1]) then
      var b := DigitRun(s[a + 1..]);
      var n := s[..a + 1 + b];
      assert n[..a] == s[..a];
      assert DigitRun(n) == a by { DigitRunPrefix(s, n, a); }
      assert n[a + 1..] == s[a + 1..][..b];
      n
    else
      var n := s[..a];
      assert DigitRun(n) == a by { DigitRunPrefix(s, n, a); }
      assert forall k :: 0 <= k < |n| ==> n[k] != '.';
      n
  }

  /** A prefix that keeps the leading digit run of `s` and then stops or
      continues with a non-digit has the same leading digit run. */
  lemma {:induction false} DigitRunPrefix(s: string, n: string, a: nat)
    requires a == DigitRun(s) && a <= |n| <= |s| && n == s[..|n|]
    ensures DigitRun(n) == a
    decreases a
  {
    if a > 0 {
      DigitRunPrefix(s[1..], n[1..], a - 1);
    }
  }

  /** Index of the first digit of `s`, if any. */
  function FirstDigit(s: string): (r: Option<nat>)
    ensures r.None? ==> !HasDigit(s)
    ensures r.Some? ==> r.value < |s| && IsDigit(s[r.value])
    ensures r.Some? ==> forall k :: 0 <= k < r.value ==> !IsDigit(s[k])
    decreases |s|
  {
    if |s| == 0 then None
    else if IsDigit(s[0]) then Some(0)
    else match FirstDigit(s[1..])
      case None =>
        assert forall k :: 1 <= k < |s| ==> s[k] == s[1..][k - 1];
        None
      case Some(i) => Some(i + 1)
  }

  /** `s.match(/(\d+(\.\d+)?)/)`: the leftmost numeral of `s`, which starts
      at its first digit. */
  function FirstNumber(s: string): (r: Option<string>)
    ensures r.None? <==> !HasDigit(s)
    ensures r.Some? ==> IsNumeral(r.value) && Contains(s, r.value)
    // the match is the leftmost and greedy one: it starts at the first digit,
    // is followed by no digit, and takes a `.digits` fraction when one follows
    ensures r.Some? ==> FirstDigit(s).Some? && NumeralAt(s, r.value, FirstDigit(s).value)
  {
    match FirstDigit(s)
    case None => None
    case Some(i) =>
      var n := NumberAt(s[i..]);
      OccursInSuffix(s, i, n);
      ContainsAt(s, n);
      assert i + |n| + 1 < |s| ==> s[i..][|n| + 1] == s[i + |n| + 1];
      Some(n)
  }

  /** `n` is a maximal match of `\d+(\.\d+)?` at position `i` of `s`: it
      occurs there, no digit follows it, and when it has no fraction no
      point-and-digit follows it either. */
  predicate NumeralAt(s: string, n: string, i: nat) {
    && OccursAt(s, n, i)
    && (i + |n| == |s| || !IsDigit(s[i + |n|]))
    && ('.' !in n ==> !(i + |n| + 1 < |s| && s[i + |n|] == '.' && IsDigit(s[i + |n| + 1])))
  }

  /** A word the suffix from `i` starts with occurs at `i`. */
  lemma OccursInSuffix(s: string, i: nat, w: string)
    requires i <= |s| && StartsWith(s[i..], w)
    ensures OccursAt(s, w, i)
    ensures i + |w| < |s| ==> s[i..][|w|] == s[i + |w|]
  {
    SliceOfSlice(s, i, |w|);
  }

  lemma SliceOfSlice<T>(s: seq<T>, i: nat, n: nat)
    requires i + n <= |s|
    ensures s[i..][..n] == s[i..i + n]
  {
  }
}
