/**
 * Character classes, case folding, `str.strip()` and the leftmost-match
 * search that Python's `re.search` performs. Characters are restricted to
 * their ASCII meaning for letters, digits and case (see README, "Left out").
 */
module Text {
  import opened Wrappers

  /** The characters Python's `str.isspace()` accepts. The `\s` class of a
      `str` pattern and the argument-less `str.strip()` use the same set. */
  predicate IsSpace(c: char) {
    var n := c as int;
    (9 <= n <= 13) || (0x1C <= n <= 0x20) || n == 0x85 || n == 0xA0 || n == 0x1680
    || (0x2000 <= n <= 0x200A) || n == 0x2028 || n == 0x2029 || n == 0x202F
    || n == 0x205F || n == 0x3000
  }

  predicate IsDigit(c: char) { '0' <= c <= '9' }

  predicate IsLetter(c: char) { 'a' <= c <= 'z' || 'A' <= c <= 'Z' }

  /** What `\b` counts as a word character. */
  predicate IsWordChar(c: char) { IsLetter(c) || IsDigit(c) || c == '_' }

  function Lower(c: char): char {
    if 'A' <= c <= 'Z' then (c as int + 32) as char else c
  }

  /** `str.lower()`. */
  function LowerStr(s: string): string {
    seq(|s|, i requires 0 <= i < |s| => Lower(s[i]))
  }

  /** Every character of `s` is in the class `P`. */
  predicate All(s: string, P: char -> bool) {
    forall i :: 0 <= i < |s| ==> P(s[i])
  }

  /** `All` on a slice, read position by position. */
  lemma AllSlice(s: string, i: int, j: int, P: char -> bool)
    requires 0 <= i <= j <= |s|
    ensures All(s[i..j], P) <==> forall k :: i <= k < j ==> P(s[k])
  {
  }

  /** Python's `w in s` for strings. */
  predicate Contains(s: string, w: string) {
    exists i :: 0 <= i <= |s| - |w| && StartsWith(s, i, w)
  }

  /** `s` holds the literal `lit` at position `p`. */
  predicate StartsWith(s: string, p: int, lit: string) {
    0 <= p && p + |lit| <= |s| && s[p..p + |lit|] == lit
  }

  /** `s` holds the lower-case literal `lit` at position `p`, ignoring case. */
  predicate StartsWithCI(s: string, p: int, lit: string) {
    0 <= p && p + |lit| <= |s| && forall k :: 0 <= k < |lit| ==> Lower(s[p + k]) == lit[k]
  }

  /** `\b` at position `i`: exactly one of the characters on either side is a word character. */
  predicate WordBoundary(s: string, i: int) {
    IsWordAt(s, i - 1) != IsWordAt(s, i)
  }

  predicate IsWordAt(s: string, k: int) {
    0 <= k < |s| && IsWordChar(s[k])
  }

  /** The end of the longest run of `P`-characters starting at `i`: what a
      greedy `P*` consumes. */
  function SkipWhile(s: string, i: nat, P: char -> bool): (j: nat)
    requires i <= |s|
    ensures i <= j <= |s|
    ensures forall k :: i <= k < j ==> P(s[k])
    ensures j == |s| || !P(s[j])
    decreases |s| - i
  {
    if i < |s| && P(s[i]) then SkipWhile(s, i + 1, P) else i
  }

  // ---------------------------------------------------------------------
  // str.strip()

  function StripStart(s: string): string {
    if |s| > 0 && IsSpace(s[0]) then StripStart(s[1..]) else s
  }

  function StripEnd(s: string): string {
    if |s| > 0 && IsSpace(s[|s| - 1]) then StripEnd(s[..|s| - 1]) else s
  }

  /** `str.strip()`. */
  function Strip(s: string): string {
    StripEnd(StripStart(s))
  }

  /** `lstrip()` removes a run of whitespace from the front and stops at a
      non-space character. */
  lemma {:induction false} StripStartSpec(s: string)
    ensures |StripStart(s)| <= |s| && StripStart(s) == s[|s| - |StripStart(s)|..]
    ensures All(s[..|s| - |StripStart(s)|], IsSpace)
    ensures StripStart(s) == [] || !IsSpace(StripStart(s)[0])
  {
    if |s| > 0 && IsSpace(s[0]) {
      var r := StripStart(s[1..]);
      StripStartSpec(s[1..]);
      assert s[..|s| - |r|] == [s[0]] + s[1..][..|s| - 1 - |r|];
    }
  }

  /** `rstrip()` removes a run of whitespace from the back and stops at a
      non-space character. */
  lemma {:induction false} StripEndSpec(s: string)
    ensures |StripEnd(s)| <= |s| && StripEnd(s) == s[..|StripEnd(s)|]
    ensures All(s[|StripEnd(s)|..], IsSpace)
    ensures StripEnd(s) == [] || !IsSpace(StripEnd(s)[|StripEnd(s)| - 1])
  {
    if |s| > 0 && IsSpace(s[|s| - 1]) {
      var r := StripEnd(s[..|s| - 1]);
      StripEndSpec(s[..|s| - 1]);
      assert s[|r|..] == s[..|s| - 1][|r|..] + [s[|s| - 1]];
    }
  }

  /** `strip()` gives a slice of its argument that is empty exactly when the
      argument is all whitespace, and otherwise starts and ends with a
      non-space character. */
  lemma StripSpec(s: string)
    ensures |Strip(s)| <= |s|
    ensures Strip(s) == [] <==> All(s, IsSpace)
    ensures Strip(s) != [] ==> !IsSpace(Strip(s)[0]) && !IsSpace(Strip(s)[|Strip(s)| - 1])
    ensures exists i, j ::
      0 <= i <= j <= |s| && Strip(s) == s[i..j] && All(s[..i], IsSpace) && All(s[j..], IsSpace)
  {
    var t := StripStart(s);
    var r := StripEnd(t);
    StripStartSpec(s);
    StripEndSpec(t);
    var i := |s| - |t|;
    var j := i + |r|;
    assert r == s[i..j];
    assert s[j..] == t[|r|..];
    assert r != [] ==> r[0] == t[0];
    if r == [] {
      assert t[|r|..] == t;
      assert t == [];
      assert s[..|s|] == s;
    }
  }

  lemma {:induction false} StripEndAppendSpace(x: string, w: string)
    requires All(w, IsSpace)
    ensures StripEnd(x + w) == StripEnd(x)
    decreases |w|
  {
    if w != [] {
      var w' := w[..|w| - 1];
      assert (x + w)[..|x + w| - 1] == x + w';
      StripEndAppendSpace(x, w');
    } else {
      assert x + w == x;
    }
  }

  lemma {:induction false} StripStartAppend(x: string, w: string)
    ensures !All(x, IsSpace) ==> StripStart(x + w) == StripStart(x) + w
    ensures All(x, IsSpace) && All(w, IsSpace) ==> StripStart(x + w) == []
    decreases |x| + |w|
  {
    if x != [] {
      assert (x + w)[0] == x[0];
      assert (x + w)[1..] == x[1..] + w;
      StripStartSpec(x);
      if IsSpace(x[0]) {
        StripStartAppend(x[1..], w);
        if !All(x, IsSpace) {
          var i :| 0 <= i < |x| && !IsSpace(x[i]);
          assert !IsSpace(x[1..][i - 1]);
        }
      }
    } else {
      assert x + w == w;
      if All(w, IsSpace) && w != [] {
        assert w[1..] == [] + w[1..];
        StripStartAppend([], w[1..]);
      }
    }
  }

  /** Whitespace appended to a string does not change what `strip()` gives. */
  lemma StripAppendSpace(x: string, w: string)
    requires All(w, IsSpace)
    ensures Strip(x + w) == Strip(x)
  {
    StripStartAppend(x, w);
    if All(x, IsSpace) {
      StripSpec(x);
    } else {
      StripEndAppendSpace(StripStart(x), w);
    }
  }

  // ---------------------------------------------------------------------
  // Fixed-width patterns

  /** One position of a fixed-width pattern: `'L'` is an ASCII letter of
      either case (`[A-Z]` under `re.IGNORECASE`), `'D'` is `\d`, any other
      character stands for itself. */
  predicate FitsClass(cls: char, c: char) {
    if cls == 'L' then IsLetter(c) else if cls == 'D' then IsDigit(c) else c == cls
  }

  /** The fixed-width pattern `shape` matches `s` at position `q`. */
  predicate ShapeAt(s: string, q: int, shape: string) {
    0 <= q && q + |shape| <= |s| && forall k :: 0 <= k < |shape| ==> FitsClass(shape[k], s[q + k])
  }

  // ---------------------------------------------------------------------
  // re.search

  /** A match found at `start`, carrying what the rule extracts from it. */
  datatype Match<T> = Match(start: nat, value: T)

  /** The leftmost position from `i` on at which `at` matches, scanning
      positions `i .. |s|` in order as `re.search` does. */
  function SearchFrom<T(==)>(s: string, i: nat, at: (string, nat) -> Option<T>): (r: Option<Match<T>>)
    requires i <= |s| + 1
    ensures r.Some? ==> i <= r.value.start <= |s| && at(s, r.value.start) == Some(r.value.value)
    ensures r.Some? ==> forall j: nat :: i <= j < r.value.start ==> at(s, j).None?
    ensures r.None? ==> forall j: nat :: i <= j <= |s| ==> at(s, j).None?
    decreases |s| + 1 - i
  {
    if i > |s| then None
    else match at(s, i)
      case Some(v) => Some(Match(i, v))
      case None => SearchFrom(s, i + 1, at)
  }

  /** `re.search`: the leftmost match of `at` in `s`. */
  function Search<T(==)>(s: string, at: (string, nat) -> Option<T>): Option<Match<T>> {
    SearchFrom(s, 0, at)
  }
}
