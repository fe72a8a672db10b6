/** The string primitives the instruction parser relies on: Python's
    `str.lower()` (restricted to ASCII letters), the substring test
    `needle in haystack`, `str.split()` without arguments and `' '.join(...)`. */
module Text {

  /** Python's `str.isspace()`: the characters `str.split()` treats as separators. */
  predicate IsSpace(c: char) {
    var n := c as int;
    (0x09 <= n <= 0x0D) || (0x1C <= n <= 0x20) || n == 0x85 || n == 0xA0 ||
    n == 0x1680 || (0x2000 <= n <= 0x200A) || n == 0x2028 || n == 0x2029 ||
    n == 0x202F || n == 0x205F || n == 0x3000
  }

  /** ASCII lower-casing of one character. */
  function LowerChar(c: char): char {
    if 'A' <= c <= 'Z' then (c as int + 32) as char else c
  }

  /** `s.lower()`, character by character. */
  function Lower(s: string): string {
    seq(|s|, i requires 0 <= i < |s| => LowerChar(s[i]))
  }

  /** The needle occurs in the haystack starting at position `i`. */
  predicate OccursAt(needle: string, haystack: string, i: int) {
    0 <= i <= |haystack| - |needle| && haystack[i..i + |needle|] == needle
  }

  /** `needle in haystack` for two strings: some window of the haystack equals the needle. */
  predicate IsSubstring(needle: string, haystack: string) {
    exists i :: 0 <= i <= |haystack| - |needle| && OccursAt(needle, haystack, i)
  }

  /** The lower-cased window of `haystack` at position `i` equals the needle. */
  predicate OccursIgnoringCaseAt(needle: string, haystack: string, i: int) {
    0 <= i <= |haystack| - |needle| && Lower(haystack[i..i + |needle|]) == needle
  }

  /** Some window of `haystack`, lower-cased, equals the needle. */
  predicate ContainsIgnoringCase(needle: string, haystack: string) {
    exists i :: 0 <= i <= |haystack| - |needle| && OccursIgnoringCaseAt(needle, haystack, i)
  }

  /** A token that `str.split()` can produce: non-empty, with no separator in it. */
  predicate IsToken(w: string) {
    |w| > 0 && forall i :: 0 <= i < |w| ==> !IsSpace(w[i])
  }

  /** Length of the longest separator-free prefix of `s`. */
  function WordLength(s: string): (n: nat)
    ensures n <= |s|
    ensures forall i :: 0 <= i < n ==> !IsSpace(s[i])
    ensures n == |s| || IsSpace(s[n])
  {
    if s == [] || IsSpace(s[0]) then 0 else 1 + WordLength(s[1..])
  }

  /** `s.split()`: the maximal runs of non-separator characters, left to right. */
  function Split(s: string): (words: seq<string>)
    ensures forall w :: w in words ==> IsToken(w)
    ensures s == [] ==> words == []
  {
    if s == [] then []
    else if IsSpace(s[0]) then Split(s[1..])
    else
      var n := WordLength(s);
      [s[..n]] + Split(s[n..])
  }

  /** `' '.join(words)`. */
  function Join(words: seq<string>): string {
    if words == [] then ""
    else if |words| == 1 then words[0]
    else words[0] + " " + Join(words[1..])
  }

  /** The tokens laid end to end. */
  function Concat(words: seq<string>): string {
    if words == [] then "" else words[0] + Concat(words[1..])
  }

  /** The characters of `s` that are not separators, in order. */
  function NonSpace(s: string): string {
    if s == [] then "" else (if IsSpace(s[0]) then "" else [s[0]]) + NonSpace(s[1..])
  }

  /** A separator-free prefix passes through `NonSpace` whole. */
  lemma {:induction false} NonSpaceOfPrefix(s: string, n: nat)
    requires n <= |s|
    requires forall i :: 0 <= i < n ==> !IsSpace(s[i])
    ensures NonSpace(s) == s[..n] + NonSpace(s[n..])
  {
    if n > 0 {
      NonSpaceOfPrefix(s[1..], n - 1);
      assert s[1..][..n - 1] == s[1..n];
      assert s[1..][n - 1..] == s[n..];
      assert [s[0]] + s[1..n] == s[..n];
    }
  }

  /** The tokens of `s.split()`, laid end to end, are exactly the non-separator characters of `s`:
      nothing is lost, added or reordered. */
  lemma {:induction false} SplitConcat(s: string)
    ensures Concat(Split(s)) == NonSpace(s)
    decreases |s|
  {
    if s == [] {
    } else if IsSpace(s[0]) {
      SplitConcat(s[1..]);
    } else {
      var n := WordLength(s);
      var rest := Split(s[n..]);
      SplitConcat(s[n..]);
      NonSpaceOfPrefix(s, n);
      assert ([s[..n]] + rest)[1..] == rest;
      assert Concat(Split(s)) == s[..n] + Concat(rest);
    }
  }

  /** A separator after `a` ends the first word no later than `a` does. */
  lemma {:induction false} WordLengthBeforeSpace(a: string, c: char, b: string)
    requires IsSpace(c)
    ensures WordLength(a + [c] + b) == WordLength(a)
  {
    var s := a + [c] + b;
    if a != [] && !IsSpace(a[0]) {
      assert s[0] == a[0];
      assert s[1..] == a[1..] + [c] + b;
      WordLengthBeforeSpace(a[1..], c, b);
    } else if a != [] {
      assert s[0] == a[0];
    }
  }

  /** A separator always ends a token: splitting at it splits the token list. */
  lemma {:induction false} SplitAtSpace(a: string, c: char, b: string)
    requires IsSpace(c)
    ensures Split(a + [c] + b) == Split(a) + Split(b)
    decreases |a|, 1
  {
    var s := a + [c] + b;
    if a == [] {
      assert s[1..] == b;
    } else if IsSpace(a[0]) {
      assert s[0] == a[0];
      assert s[1..] == a[1..] + [c] + b;
      SplitAtSpace(a[1..], c, b);
    } else {
      SplitAtSpaceAfterWord(a, c, b);
    }
  }

  /** `SplitAtSpace` when `a` starts with a word: that word is the first token on both sides. */
  lemma {:induction false} SplitAtSpaceAfterWord(a: string, c: char, b: string)
    requires IsSpace(c) && a != [] && !IsSpace(a[0])
    ensures Split(a + [c] + b) == Split(a) + Split(b)
    decreases |a|, 0
  {
    var s := a + [c] + b;
    assert s[0] == a[0];
    var m := WordLength(a);
    WordLengthBeforeSpace(a, c, b);
    assert s[..m] == a[..m];
    assert s[m..] == a[m..] + [c] + b;
    SplitAtSpace(a[m..], c, b);
  }

  /** Joining tokens never yields the empty string. */
  lemma {:induction false} JoinNonEmpty(words: seq<string>)
    requires words != []
    requires forall w :: w in words ==> IsToken(w)
    ensures Join(words) != ""
  {
    assert words[0] in words;
    if |words| > 1 {
      assert |Join(words)| >= |words[0]|;
    }
  }

  /** A separator-free prefix followed by a separator (or nothing) is one whole word. */
  lemma {:induction false} WordLengthOfToken(w: string, rest: string)
    requires forall i :: 0 <= i < |w| ==> !IsSpace(w[i])
    requires rest == [] || IsSpace(rest[0])
    ensures WordLength(w + rest) == |w|
  {
    if w != [] {
      assert (w + rest)[1..] == w[1..] + rest;
      WordLengthOfToken(w[1..], rest);
    }
  }

  /** Splitting what was joined gives back the tokens: `' '.join` and `split()` are inverse on tokens. */
  lemma {:induction false} SplitJoin(words: seq<string>)
    requires forall w :: w in words ==> IsToken(w)
    ensures Split(Join(words)) == words
  {
    if words == [] {
    } else {
      var w := words[0];
      assert w in words;
      var tail := if |words| == 1 then "" else " " + Join(words[1..]);
      assert Join(words) == w + tail;
      WordLengthOfToken(w, tail);
      var s := w + tail;
      assert s[..|w|] == w;
      assert s[|w|..] == tail;
      assert Split(s) == [w] + Split(tail);
      if |words| > 1 {
        forall v | v in words[1..] ensures IsToken(v) { assert v in words; }
        SplitJoin(words[1..]);
        assert tail[1..] == Join(words[1..]);
        assert Split(tail) == Split(Join(words[1..]));
        assert words == [w] + words[1..];
      }
    }
  }

  /** A window of the lower-cased text is the lower-cased window. */
  lemma LowerWindow(s: string, i: int, j: int)
    requires 0 <= i <= j <= |s|
    ensures Lower(s)[i..j] == Lower(s[i..j])
  {
  }

  /** Searching the lower-cased text is searching the text while ignoring case. */
  lemma LowerSubstring(needle: string, s: string)
    ensures IsSubstring(needle, Lower(s)) <==> ContainsIgnoringCase(needle, s)
  {
    forall i | 0 <= i <= |s| - |needle|
      ensures OccursAt(needle, Lower(s), i) <==> OccursIgnoringCaseAt(needle, s, i)
    {
      LowerWindow(s, i, i + |needle|);
    }
  }
}
