/**
 Character classes and the string helpers of Python's `str` that the ingestion code relies on,
 restricted to ASCII: `str.strip()`, `str.lower()` and the regex classes `\s` and `\d`.
 */
module Text {

  /** The ASCII characters for which Python's `str.isspace()` holds; `str.strip()` removes
      exactly these and the regex class `\s` matches exactly these. */
  predicate IsSpace(c: char) {
    c == ' ' || c == '\t' || c == '\n' || c == '\r' || c == '\U{B}' || c == '\U{C}'
    || ('\U{1C}' <= c <= '\U{1F}')
  }

  /** The regex class `\d` on ASCII. */
  predicate IsDigit(c: char) {
    '0' <= c <= '9'
  }

  /** The regex class `[-+]`. */
  predicate IsSign(c: char) {
    c == '+' || c == '-'
  }

  predicate AllSpace(s: string) {
    forall i :: 0 <= i < |s| ==> IsSpace(s[i])
  }

  predicate AllDigits(s: string) {
    forall i :: 0 <= i < |s| ==> IsDigit(s[i])
  }

  predicate HasDigit(s: string) {
    exists i :: 0 <= i < |s| && IsDigit(s[i])
  }

  /** Length of the longest run of characters satisfying `p` that starts at index `i`. */
  function RunLength(s: string, i: nat, p: char -> bool): (n: nat)
    requires i <= |s|
    ensures i + n <= |s|
    ensures forall k :: i <= k < i + n ==> p(s[k])
    ensures i + n < |s| ==> !p(s[i + n])
    decreases |s| - i
  {
    if i < |s| && p(s[i]) then 1 + RunLength(s, i + 1, p) else 0
  }

  /** A run is at least as long as any stretch of `p`-characters starting at `i`. */
  lemma {:induction false} RunCovers(s: string, i: nat, p: char -> bool, j: int)
    requires i <= j <= |s|
    requires forall k :: i <= k < j ==> p(s[k])
    ensures j <= i + RunLength(s, i, p)
  {
  }

  /** Length of the longest run of characters satisfying `p` that ends just before index `j`. */
  function RunBack(s: string, j: nat, p: char -> bool): (n: nat)
    requires j <= |s|
    ensures n <= j
    ensures forall k :: j - n <= k < j ==> p(s[k])
    ensures n < j ==> !p(s[j - n - 1])
  {
    if j > 0 && p(s[j - 1]) then 1 + RunBack(s, j - 1, p) else 0
  }

  /** `r` occurs in `s` at index `lo` with nothing but whitespace around it. */
  ghost predicate Pads(s: string, lo: int, r: string) {
    && 0 <= lo && lo + |r| <= |s|
    && (forall i :: 0 <= i < |r| ==> s[lo + i] == r[i])
    && (forall i :: 0 <= i < lo ==> IsSpace(s[i]))
    && (forall i :: lo + |r| <= i < |s| ==> IsSpace(s[i]))
  }

  /** Neither end of `r` is whitespace. */
  predicate IsStripped(r: string) {
    |r| > 0 ==> !IsSpace(r[0]) && !IsSpace(r[|r| - 1])
  }

  /** Python's `str.strip()` with no argument: drops the leading and the trailing whitespace. */
  function Strip(s: string): (r: string)
    ensures IsStripped(r)
    ensures |r| <= |s|
  {
    var lo := RunLength(s, 0, IsSpace);
    if lo == |s| then [] else s[lo..|s| - RunBack(s, |s|, IsSpace)]
  }

  /** `Strip(s)` sits inside `s` between whitespace, after the leading whitespace. */
  lemma {:induction false} StripPads(s: string)
    ensures Pads(s, RunLength(s, 0, IsSpace), Strip(s))
  {
    var lo := RunLength(s, 0, IsSpace);
    if lo < |s| {
      var hi := |s| - RunBack(s, |s|, IsSpace);
      assert Strip(s) == s[lo..hi];
    }
  }

  /** A stripped string between whitespace is empty exactly when all of `s` is whitespace. */
  lemma {:induction false} PadsBlank(s: string, lo: int, r: string)
    requires Pads(s, lo, r) && IsStripped(r)
    ensures r == [] <==> AllSpace(s)
  {
    if r == [] {
      forall i | 0 <= i < |s| ensures IsSpace(s[i]) {
        assert i < lo || lo + |r| <= i;
      }
    } else {
      assert s[lo] == r[0];
    }
  }

  /** `str.strip()` gives the empty string exactly for whitespace. */
  lemma {:induction false} StripBlank(s: string)
    ensures Strip(s) == [] <==> AllSpace(s)
  {
    StripPads(s);
    PadsBlank(s, RunLength(s, 0, IsSpace), Strip(s));
  }

  /** In a padded stripped non-empty `r`, `lo` is the first non-space index and `lo + |r|` is one
      past the last. */
  lemma {:induction false} PadsBounds(s: string, lo: int, r: string, lo': int, r': string)
    requires Pads(s, lo, r) && IsStripped(r) && r != []
    requires Pads(s, lo', r') && IsStripped(r') && r' != []
    ensures lo == lo' && |r| == |r'|
  {
    assert s[lo] == r[0] && s[lo'] == r'[0];
    assert s[lo + |r| - 1] == r[|r| - 1];
    assert s[lo' + |r'| - 1] == r'[|r'| - 1];
  }

  /** At most one stripped string sits in `s` between whitespace. */
  lemma {:induction false} PadsSame(s: string, lo: int, r: string, lo': int, r': string)
    requires Pads(s, lo, r) && IsStripped(r)
    requires Pads(s, lo', r') && IsStripped(r')
    ensures r == r'
  {
    PadsBlank(s, lo, r);
    PadsBlank(s, lo', r');
    if r != [] {
      PadsBounds(s, lo, r, lo', r');
      forall i | 0 <= i < |r| ensures r[i] == r'[i] {
        assert r[i] == s[lo + i] == r'[i];
      }
    }
  }

  /** `Strip(s)` is the only stripped string that sits in `s` between whitespace. */
  lemma {:induction false} StripUnique(s: string, lo: int, r: string)
    requires Pads(s, lo, r) && IsStripped(r)
    ensures Strip(s) == r
  {
    StripPads(s);
    PadsSame(s, lo, r, RunLength(s, 0, IsSpace), Strip(s));
  }

  /** Whitespace put in front keeps a string between whitespace. */
  lemma {:induction false} PadsSpacePrefix(w: string, x: string, lo: int, r: string)
    requires AllSpace(w) && Pads(x, lo, r)
    ensures Pads(w + x, |w| + lo, r)
  {
    var s := w + x;
    forall i | 0 <= i < |r| ensures s[|w| + lo + i] == r[i] {
      assert s[|w| + lo + i] == x[lo + i];
    }
    forall i | 0 <= i < |w| + lo ensures IsSpace(s[i]) {
      if i >= |w| { assert s[i] == x[i - |w|]; }
    }
    forall i | |w| + lo + |r| <= i < |s| ensures IsSpace(s[i]) {
      assert s[i] == x[i - |w|];
    }
  }

  /** Whitespace put after keeps a string between whitespace. */
  lemma {:induction false} PadsSpaceSuffix(x: string, w: string, lo: int, r: string)
    requires AllSpace(w) && Pads(x, lo, r)
    ensures Pads(x + w, lo, r)
  {
    var s := x + w;
    forall i | 0 <= i < |r| ensures s[lo + i] == r[i] {
      assert s[lo + i] == x[lo + i];
    }
    forall i | 0 <= i < lo ensures IsSpace(s[i]) {
      assert s[i] == x[i];
    }
    forall i | lo + |r| <= i < |s| ensures IsSpace(s[i]) {
      if i >= |x| { assert s[i] == w[i - |x|]; } else { assert s[i] == x[i]; }
    }
  }

  /** Stripping ignores whitespace put in front of a string. */
  lemma {:induction false} StripSpacePrefix(w: string, x: string)
    requires AllSpace(w)
    ensures Strip(w + x) == Strip(x)
  {
    StripPads(x);
    PadsSpacePrefix(w, x, RunLength(x, 0, IsSpace), Strip(x));
    StripUnique(w + x, |w| + (RunLength(x, 0, IsSpace)), Strip(x));
  }

  /** Stripping ignores whitespace put after a string. */
  lemma {:induction false} StripSpaceSuffix(x: string, w: string)
    requires AllSpace(w)
    ensures Strip(x + w) == Strip(x)
  {
    StripPads(x);
    PadsSpaceSuffix(x, w, RunLength(x, 0, IsSpace), Strip(x));
    StripUnique(x + w, RunLength(x, 0, IsSpace), Strip(x));
  }

  /** A string without whitespace at either end is its own strip. */
  lemma {:induction false} StripStripped(x: string)
    requires IsStripped(x)
    ensures Strip(x) == x
  {
    assert Pads(x, 0, x);
    StripUnique(x, 0, x);
  }

  /** Every character of `Strip(s)` is a character of `s`, and `s` keeps all its digits. */
  lemma {:induction false} StripKeepsCharacters(s: string)
    ensures forall c :: c in Strip(s) ==> c in s
    ensures HasDigit(Strip(s)) <==> HasDigit(s)
  {
    StripPads(s);
    PadsKeepsCharacters(s, RunLength(s, 0, IsSpace), Strip(s));
  }

  /** What sits in `s` between whitespace has only characters of `s`, and all its digits. */
  lemma {:induction false} PadsKeepsCharacters(s: string, lo: int, r: string)
    requires Pads(s, lo, r)
    ensures forall c :: c in r ==> c in s
    ensures HasDigit(r) <==> HasDigit(s)
  {
    forall c | c in r ensures c in s {
      var k :| 0 <= k < |r| && r[k] == c;
      assert s[lo + k] == c;
    }
    if HasDigit(s) {
      var k :| 0 <= k < |s| && IsDigit(s[k]);
      assert lo <= k < lo + |r|;
      assert r[k - lo] == s[k];
    }
    if HasDigit(r) {
      var k :| 0 <= k < |r| && IsDigit(r[k]);
      assert s[lo + k] == r[k];
    }
  }

  /** The ASCII capital letters: the only characters `str.lower()` changes on ASCII text. */
  predicate IsUpper(c: char) {
    'A' <= c <= 'Z'
  }

  predicate NoUpper(s: string) {
    forall i :: 0 <= i < |s| ==> !IsUpper(s[i])
  }

  /** Python's `str.lower()` on one ASCII character: a capital becomes the small letter 32 code
      points above it, and every other character stays. */
  function LowerChar(c: char): (r: char)
    ensures !IsUpper(r)
    ensures !IsUpper(c) ==> r == c
    ensures IsUpper(c) ==> 'a' <= r <= 'z' && r as int == c as int + 32
    ensures IsSpace(r) <==> IsSpace(c)
  {
    if IsUpper(c) then (c as int + 32) as char else c
  }

  /** Python's `str.lower()` on ASCII text. */
  function Lower(s: string): (r: string)
    ensures |r| == |s| && NoUpper(r)
    ensures forall i :: 0 <= i < |s| ==> r[i] == LowerChar(s[i])
    ensures NoUpper(s) ==> r == s
    ensures IsStripped(s) ==> IsStripped(r)
  {
    seq(|s|, i requires 0 <= i < |s| => LowerChar(s[i]))
  }

  /** Lower-casing and stripping commute, since lower-casing keeps every whitespace character
      in place and makes none. */
  lemma {:induction false} LowerStrip(s: string)
    ensures Strip(Lower(s)) == Lower(Strip(s))
  {
    var lo := RunLength(s, 0, IsSpace);
    var r := Strip(s);
    StripPads(s);
    var ls, lr := Lower(s), Lower(r);
    forall i | 0 <= i < |lr| ensures ls[lo + i] == lr[i] {
      assert s[lo + i] == r[i];
    }
    forall i | 0 <= i < lo ensures IsSpace(ls[i]) {
      assert IsSpace(s[i]);
    }
    forall i | lo + |lr| <= i < |ls| ensures IsSpace(ls[i]) {
      assert IsSpace(s[i]);
    }
    assert Pads(ls, lo, lr);
    StripUnique(ls, lo, lr);
  }
}
