/**
 The Python `str` built-ins the text statistics call: `split()` with no separator
 (and the `isspace` class it splits on), `lower()` and `isalpha()`. Two more serve
 only to state properties: `upper()`, for case-insensitivity, and `" ".join`, to
 build sentences. Character classes and `lower()` are those of Python for code
 points up to U+00FF (ASCII and Latin-1); every other code point is treated as a
 non-letter without case. `upper()` leaves U+00B5, U+00DF and U+00FF unchanged.
 */
module PyStr {

  /** Python's `str.isspace`, the separator used by `str.split()` with no argument. */
  predicate IsSpace(c: char) {
    var n := c as int;
    (0x09 <= n <= 0x0D) || (0x1C <= n <= 0x20) || n == 0x85 || n == 0xA0 ||
    n == 0x1680 || (0x2000 <= n <= 0x200A) || n == 0x2028 || n == 0x2029 ||
    n == 0x202F || n == 0x205F || n == 0x3000
  }

  /** True iff no character of `s` is whitespace. */
  predicate NoSpace(s: string) {
    forall i :: 0 <= i < |s| ==> !IsSpace(s[i])
  }

  /** True iff every character of `s` is whitespace (vacuously for ""). */
  predicate AllSpace(s: string) {
    forall i :: 0 <= i < |s| ==> IsSpace(s[i])
  }

  /** True iff `c` is an upper-case letter that `lower()` changes. */
  predicate IsUpper(c: char) {
    var n := c as int;
    ('A' <= c <= 'Z') || (0xC0 <= n <= 0xDE && n != 0xD7)
  }

  /** True iff `c` is a lower-case letter that `upper()` changes (within Latin-1). */
  predicate IsLowerCased(c: char) {
    var n := c as int;
    ('a' <= c <= 'z') || (0xE0 <= n <= 0xFE && n != 0xF7)
  }

  /** Python's `lower()` on one character. */
  function Lower(c: char): (r: char)
    ensures IsUpper(c) ==> IsLowerCased(r) && r as int == c as int + 32
    ensures !IsUpper(c) ==> r == c
    ensures !IsUpper(r)
  {
    if IsUpper(c) then (c as int + 32) as char else c
  }

  /** Python's `upper()` on one character, for the letters whose upper case stays in Latin-1. */
  function Upper(c: char): (r: char)
    ensures IsLowerCased(c) ==> IsUpper(r) && r as int == c as int - 32
    ensures !IsLowerCased(c) ==> r == c
    ensures !IsLowerCased(r)
  {
    if IsLowerCased(c) then (c as int - 32) as char else c
  }

  /** Python's `isalpha()` on one character. */
  predicate IsAlpha(c: char) {
    var n := c as int;
    ('A' <= c <= 'Z') || ('a' <= c <= 'z') || n == 0xAA || n == 0xB5 || n == 0xBA ||
    (0xC0 <= n <= 0xD6) || (0xD8 <= n <= 0xF6) || (0xF8 <= n <= 0xFF)
  }

  /** `str.lower()`: character by character. */
  function LowerString(s: string): (r: string)
    ensures |r| == |s|
    ensures forall i :: 0 <= i < |s| ==> r[i] == Lower(s[i])
    ensures forall i :: 0 <= i < |r| ==> !IsUpper(r[i])
  {
    seq(|s|, i requires 0 <= i < |s| => Lower(s[i]))
  }

  /** `str.upper()`: character by character. */
  function UpperString(s: string): (r: string)
    ensures |r| == |s|
    ensures forall i :: 0 <= i < |s| ==> r[i] == Upper(s[i])
    ensures forall i :: 0 <= i < |r| ==> !IsLowerCased(r[i])
  {
    seq(|s|, i requires 0 <= i < |s| => Upper(s[i]))
  }

  /** Lower-casing forgets the case a character had. */
  lemma LowerUpper(c: char)
    ensures Lower(Upper(c)) == Lower(c)
    ensures Lower(Lower(c)) == Lower(c)
  {
  }

  /** `text.lower()` is idempotent: lower-casing lower-cased text changes nothing. */
  lemma LowerStringIdempotent(s: string)
    ensures LowerString(LowerString(s)) == LowerString(s)
  {
    var r := LowerString(s);
    forall i | 0 <= i < |r| ensures LowerString(r)[i] == r[i] {
      LowerUpper(s[i]);
    }
  }

  /** `text.upper().lower()` is `text.lower()`: upper-casing first loses nothing that lower-casing keeps. */
  lemma LowerOfUpperString(s: string)
    ensures LowerString(UpperString(s)) == LowerString(s)
  {
    forall i | 0 <= i < |s| ensures LowerString(UpperString(s))[i] == LowerString(s)[i] {
      LowerUpper(s[i]);
    }
  }

  /** Length of the leading run of non-whitespace characters of `s`. */
  function WordLength(s: string): (n: nat)
    ensures n <= |s|
    ensures NoSpace(s[..n])
    ensures n == |s| || IsSpace(s[n])
  {
    if s == [] || IsSpace(s[0]) then 0 else 1 + WordLength(s[1..])
  }

  /**
   `str.split()` with no separator: the maximal runs of non-whitespace characters,
   in order. Leading, trailing and repeated whitespace produce no empty tokens.
   */
  function Split(s: string): (words: seq<string>)
    ensures forall k :: 0 <= k < |words| ==> |words[k]| > 0 && NoSpace(words[k])
    decreases |s|
  {
    if s == [] then []
    else if IsSpace(s[0]) then Split(s[1..])
    else
      var n := WordLength(s);
      [s[..n]] + Split(s[n..])
  }

  /** A word that is followed by more text ends at the end of the word. */
  lemma {:induction false} WordLengthAppend(a: string, t: string)
    requires WordLength(a) < |a| || t == [] || IsSpace(t[0])
    ensures WordLength(a + t) == WordLength(a)
    decreases |a|
  {
    if a == [] {
    } else if IsSpace(a[0]) {
    } else {
      assert (a + t)[1..] == a[1..] + t;
      WordLengthAppend(a[1..], t);
    }
  }

  /** A token with no whitespace in it splits into itself. */
  lemma SplitWord(w: string)
    requires |w| > 0 && NoSpace(w)
    ensures Split(w) == [w]
  {
    var n := WordLength(w);
    assert n == |w|;
    assert w[..n] == w;
    assert w[n..] == [];
  }

  /** Whitespace alone (or nothing) contains no tokens. */
  lemma {:induction false} SplitSpace(s: string)
    requires AllSpace(s)
    ensures Split(s) == []
    decreases |s|
  {
    if s != [] {
      SplitSpace(s[1..]);
    }
  }

  /**
   One whitespace character is a delimiter: splitting around it splits each side on
   its own. Together with SplitWord and SplitSpace this determines Split on every
   input.
   */
  lemma {:induction false} SplitAtSpace(a: string, c: char, b: string)
    requires IsSpace(c)
    ensures Split(a + [c] + b) == Split(a) + Split(b)
    decreases |a|
  {
    var s := a + [c] + b;
    if a == [] {
      assert s[1..] == b;
    } else if IsSpace(a[0]) {
      assert s[1..] == a[1..] + [c] + b;
      SplitAtSpace(a[1..], c, b);
    } else {
      var m := WordLength(a);
      WordLengthAppend(a, [c] + b);
      assert s == a + ([c] + b);
      assert WordLength(s) == m;
      assert s[..m] == a[..m];
      assert s[m..] == a[m..] + [c] + b;
      SplitAtSpace(a[m..], c, b);
    }
  }

  /** There are no tokens exactly when the text is empty or all whitespace. */
  lemma {:induction false} SplitEmpty(s: string)
    ensures Split(s) == [] <==> AllSpace(s)
    decreases |s|
  {
    if s == [] {
    } else if IsSpace(s[0]) {
      SplitEmpty(s[1..]);
      assert AllSpace(s) <==> AllSpace(s[1..]) by {
        if AllSpace(s[1..]) {
          forall i | 0 <= i < |s| ensures IsSpace(s[i]) {
            if i > 0 { assert s[i] == s[1..][i - 1]; }
          }
        }
      }
    } else {
      assert !AllSpace(s);
    }
  }

  /** `" ".join(words)`: the words with a single space between neighbours. */
  function JoinWords(words: seq<string>): string
    decreases |words|
  {
    if words == [] then ""
    else if |words| == 1 then words[0]
    else words[0] + " " + JoinWords(words[1..])
  }

  /**
   Round trip: splitting words joined by single spaces gives the words back, as
   long as every word is non-empty and holds no whitespace.
   */
  lemma {:induction false} SplitJoin(words: seq<string>)
    requires forall k :: 0 <= k < |words| ==> |words[k]| > 0 && NoSpace(words[k])
    ensures Split(JoinWords(words)) == words
    decreases |words|
  {
    if |words| == 1 {
      SplitWord(words[0]);
    } else if |words| > 1 {
      SplitAtSpace(words[0], ' ', JoinWords(words[1..]));
      SplitWord(words[0]);
      SplitJoin(words[1..]);
      assert words == [words[0]] + words[1..];
    }
  }
}
