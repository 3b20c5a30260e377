/** The string operations the shopping assistant relies on: Python's
    `str.isspace`, `str.lower`, the `in` operator on strings and
    `str.split()` after commas are replaced by spaces. Whitespace is
    Python's full set; case folding is exact on the Latin-1 range
    U+0000..U+00FF, which holds every letter of Portuguese. */
module Text {

  /** `c.isspace()`: the characters `strip()` removes and `split()`
      splits on. */
  predicate IsSpace(c: char) {
    var n := c as int;
    || n == 0x20 || 0x09 <= n <= 0x0D || 0x1C <= n <= 0x1F || n == 0x85 || n == 0xA0
    || n == 0x1680 || 0x2000 <= n <= 0x200A || n == 0x2028 || n == 0x2029
    || n == 0x202F || n == 0x205F || n == 0x3000
  }

  /** A character that ends a word: whitespace, or a comma (which the
      tokeniser turns into a space before splitting). */
  predicate IsSeparator(c: char) {
    IsSpace(c) || c == ','
  }

  /** A Latin-1 upper-case letter: A..Z and U+00C0..U+00DE except the
      multiplication sign U+00D7. */
  predicate IsUpper(c: char) {
    var n := c as int;
    0x41 <= n <= 0x5A || (0xC0 <= n <= 0xDE && n != 0xD7)
  }

  /** `c.lower()` on the Latin-1 range: upper-case letters move down by
      32 code points, every other character is kept. */
  function LowerChar(c: char): (d: char)
    ensures !IsUpper(d)
    ensures IsSeparator(d) <==> IsSeparator(c)
    ensures !IsUpper(c) ==> d == c
  {
    if IsUpper(c) then (c as int + 32) as char else c
  }

  /** `s.lower()`. */
  function Lower(s: string): (r: string)
    ensures |r| == |s|
    ensures IsLower(r)
    ensures IsWord(r) <==> IsWord(s)
  {
    var r := seq(|s|, i requires 0 <= i < |s| => LowerChar(s[i]));
    assert forall i :: 0 <= i < |s| ==> (IsSeparator(r[i]) <==> IsSeparator(s[i]));
    r
  }

  /** No character of `s` is an upper-case letter. */
  predicate IsLower(s: string) {
    forall i :: 0 <= i < |s| ==> !IsUpper(s[i])
  }

  /** Lowering a lower-case string changes nothing, so `lower()` is
      idempotent. */
  lemma LowerOfLower(s: string)
    requires IsLower(s)
    ensures Lower(s) == s
  {
  }

  /** `s.strip() == ""`: the string is empty or whitespace only. */
  predicate IsBlank(s: string) {
    forall i :: 0 <= i < |s| ==> IsSpace(s[i])
  }

  /** Python's `t in s` on strings: `t` occurs in `s` as a contiguous
      substring (the empty string occurs in every string). */
  predicate IsSubstring(t: string, s: string) {
    t <= s || (s != [] && IsSubstring(t, s[1..]))
  }

  /** `t` is the slice of `s` that starts at offset `k`. */
  predicate OccursAt(t: string, s: string, k: int) {
    0 <= k <= |s| - |t| && s[k..k + |t|] == t
  }

  /** The substring test agrees with the textbook definition: `t` is a
      slice of `s` at some offset. */
  lemma {:induction false} SubstringAt(t: string, s: string)
    ensures IsSubstring(t, s) <==> exists k :: OccursAt(t, s, k)
  {
    if t <= s {
      assert OccursAt(t, s, 0);
    }
    if exists k :: OccursAt(t, s, k) {
      var k :| OccursAt(t, s, k);
      if k == 0 {
        assert t <= s;
      } else {
        assert OccursAt(t, s[1..], k - 1);
        SubstringAt(t, s[1..]);
      }
    }
    if s != [] && IsSubstring(t, s[1..]) {
      SubstringAt(t, s[1..]);
      var k :| OccursAt(t, s[1..], k);
      assert OccursAt(t, s, k + 1);
    }
  }

  /** A word as `split()` produces it: non-empty, with no separator. */
  predicate IsWord(w: string) {
    w != [] && forall i :: 0 <= i < |w| ==> !IsSeparator(w[i])
  }

  /** The length of the longest prefix of `s` that holds no separator. */
  function WordLength(s: string): (n: nat)
    ensures n <= |s|
    ensures forall i :: 0 <= i < n ==> !IsSeparator(s[i])
    ensures n < |s| ==> IsSeparator(s[n])
  {
    if s == [] || IsSeparator(s[0]) then 0 else 1 + WordLength(s[1..])
  }

  /** `s.replace(",", " ").split()`: the maximal runs of non-separator
      characters of `s`, left to right. */
  function Words(s: string): (ws: seq<string>)
    ensures forall i :: 0 <= i < |ws| ==> IsWord(ws[i])
    decreases |s|
  {
    if s == [] then []
    else if IsSeparator(s[0]) then Words(s[1..])
    else
      var n := WordLength(s);
      [s[..n]] + Words(s[n..])
  }

  /** `" ".join(ws)`. */
  function Join(ws: seq<string>): string {
    if |ws| == 0 then []
    else if |ws| == 1 then ws[0]
    else ws[0] + " " + Join(ws[1..])
  }

  /** A separator after `a` ends the first word no later than in `a`
      alone. */
  lemma {:induction false} WordLengthBeforeSeparator(a: string, c: char, b: string)
    requires IsSeparator(c)
    ensures WordLength(a + [c] + b) == WordLength(a)
  {
    if a != [] && !IsSeparator(a[0]) {
      assert (a + [c] + b)[1..] == a[1..] + [c] + b;
      WordLengthBeforeSeparator(a[1..], c, b);
    }
  }

  /** Splitting at a separator: the words of `a + c + b` are the words of
      `a` followed by the words of `b`, so `split()` keeps the left-to-right
      order of the input and never joins text across a separator. */
  lemma {:induction false} WordsAtSeparator(a: string, c: char, b: string)
    requires IsSeparator(c)
    ensures Words(a + [c] + b) == Words(a) + Words(b)
    decreases |a|
  {
    var s := a + [c] + b;
    if a == [] {
      assert s[1..] == b;
    } else if IsSeparator(a[0]) {
      assert s[1..] == a[1..] + [c] + b;
      WordsAtSeparator(a[1..], c, b);
    } else {
      var n := WordLength(s);
      WordLengthBeforeSeparator(a, c, b);
      assert s[..n] == a[..n];
      assert s[n..] == a[n..] + [c] + b;
      WordsAtSeparator(a[n..], c, b);
    }
  }

  /** A single word splits into itself. */
  lemma {:induction false} WordsOfWord(w: string)
    requires IsWord(w)
    ensures Words(w) == [w]
  {
    WordLengthWhole(w);
    assert w[..|w|] == w;
    assert w[|w|..] == [];
  }

  lemma {:induction false} WordLengthWhole(w: string)
    requires forall i :: 0 <= i < |w| ==> !IsSeparator(w[i])
    ensures WordLength(w) == |w|
  {
    if w != [] {
      WordLengthWhole(w[1..]);
    }
  }

  /** Round trip: splitting words joined by single spaces gives the words
      back. */
  lemma {:induction false} WordsOfJoin(ws: seq<string>)
    requires forall i :: 0 <= i < |ws| ==> IsWord(ws[i])
    ensures Words(Join(ws)) == ws
  {
    if |ws| == 1 {
      WordsOfWord(ws[0]);
    } else if |ws| > 1 {
      WordsOfWord(ws[0]);
      WordsOfJoin(ws[1..]);
      WordsAtSeparator(ws[0], ' ', Join(ws[1..]));
      assert ws[0] + " " + Join(ws[1..]) == ws[0] + [' '] + Join(ws[1..]);
      assert [ws[0]] + ws[1..] == ws;
    }
  }

  /** A blank string has no words. */
  lemma {:induction false} WordsOfBlank(s: string)
    requires IsBlank(s)
    ensures Words(s) == []
  {
    if s != [] {
      WordsOfBlank(s[1..]);
    }
  }
}
