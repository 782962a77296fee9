/**
 The cell splitter `_split_multi`: `re.split(r'\s*[;,|/]\s*', value)`, then every piece stripped
 and blank pieces dropped.
 */
module FieldSplitter {
  import opened Options
  import opened Text

  /** The regex class `[;,|/]`. */
  predicate IsDelimiter(c: char) {
    c == ';' || c == ',' || c == '|' || c == '/'
  }

  predicate IsPlain(c: char) {
    !IsDelimiter(c)
  }

  predicate NoDelimiter(s: string) {
    forall i :: 0 <= i < |s| ==> !IsDelimiter(s[i])
  }

  /**
   Where the engine's match of `\s*[;,|/]\s*` ends when it tries index `i`, if it matches there.
   The leading `\s*` takes the whole whitespace run and a delimiter must follow it; handing
   whitespace back never helps, since no whitespace character is a delimiter. The trailing `\s*`
   takes the whitespace run after the delimiter.
   */
  function SeparatorAt(s: string, i: nat): (r: Option<nat>)
    requires i <= |s|
  {
    var w := RunLength(s, i, IsSpace);
    if i + w < |s| && IsDelimiter(s[i + w]) then
      Some(i + w + 1 + RunLength(s, i + w + 1, IsSpace))
    else
      None
  }

  /** The leftmost separator match at or after index `i`, as the span `(start, end)`. */
  function NextSeparator(s: string, i: nat): (r: Option<(nat, nat)>)
    requires i <= |s|
    ensures r.Some? ==> i <= r.value.0 < r.value.1 <= |s|
    decreases |s| - i
  {
    match SeparatorAt(s, i)
    case Some(e) => Some((i, e))
    case None => if i == |s| then None else NextSeparator(s, i + 1)
  }

  /** What the search finds is a separator match. */
  lemma {:induction false} NextSeparatorFound(s: string, i: nat, r: Option<(nat, nat)>)
    requires i <= |s| && r == NextSeparator(s, i) && r.Some?
    ensures SeparatorAt(s, r.value.0) == Some(r.value.1)
    decreases |s| - i
  {
    if SeparatorAt(s, i).None? {
      NextSeparatorFound(s, i + 1, NextSeparator(s, i + 1));
    }
  }

  /** Before what the search finds, and everywhere when it finds nothing, no separator match
      starts: the match found is the leftmost one. */
  lemma {:induction false} NextSeparatorSkips(s: string, i: nat, r: Option<(nat, nat)>, j: nat)
    requires i <= j <= |s| && r == NextSeparator(s, i)
    requires r.Some? ==> j < r.value.0
    ensures SeparatorAt(s, j).None?
    decreases j - i
  {
    if j > i {
      assert SeparatorAt(s, i).None? && i < |s|;
      NextSeparatorSkips(s, i + 1, NextSeparator(s, i + 1), j);
    }
  }

  /** The pieces `re.split` produces from index `i` on: the text before each leftmost separator
      match, the search resuming where that match ends, and the text after the last one. */
  function SplitFrom(s: string, i: nat): (r: seq<string>)
    requires i <= |s|
    decreases |s| - i
  {
    match NextSeparator(s, i)
    case None => [s[i..]]
    case Some((a, e)) => [s[i..a]] + SplitFrom(s, e)
  }

  /** `[p.strip() for p in parts]`. */
  function StripAll(parts: seq<string>): (r: seq<string>)
    ensures |r| == |parts|
  {
    if parts == [] then [] else [Strip(parts[0])] + StripAll(parts[1..])
  }

  /** Each piece of `StripAll(parts)` is the stripped part at the same index. */
  lemma {:induction false} StripAllAt(parts: seq<string>)
    ensures forall k :: 0 <= k < |parts| ==> StripAll(parts)[k] == Strip(parts[k])
  {
    if parts != [] {
      StripAllAt(parts[1..]);
    }
  }

  /** The non-empty strings of `ps`, in order. */
  function DropEmpty(ps: seq<string>): (r: seq<string>)
    ensures |r| <= |ps|
    ensures forall k :: 0 <= k < |r| ==> r[k] != [] && r[k] in ps
  {
    if ps == [] then []
    else (if ps[0] != [] then [ps[0]] else []) + DropEmpty(ps[1..])
  }

  /** `[p.strip() for p in parts if p.strip()]`. */
  function KeepNonBlank(parts: seq<string>): (r: seq<string>)
    ensures |r| <= |parts|
  {
    DropEmpty(StripAll(parts))
  }

  /** What `KeepNonBlank` keeps are non-empty stripped parts. */
  lemma {:induction false} KeepNonBlankMeaning(parts: seq<string>)
    ensures forall k :: 0 <= k < |KeepNonBlank(parts)| ==> KeepNonBlank(parts)[k] != [] && IsStripped(KeepNonBlank(parts)[k])
    ensures forall k :: 0 <= k < |KeepNonBlank(parts)| ==>
              exists j :: 0 <= j < |parts| && KeepNonBlank(parts)[k] == Strip(parts[j])
  {
    StripAllAt(parts);
    var r, sa := KeepNonBlank(parts), StripAll(parts);
    forall k | 0 <= k < |r| ensures r[k] != [] && IsStripped(r[k]) && exists j :: 0 <= j < |parts| && r[k] == Strip(parts[j]) {
      var j :| 0 <= j < |sa| && sa[j] == r[k];
      assert r[k] == Strip(parts[j]);
    }
  }

  /** The indices from `i` on of the non-empty strings of `ps`, in order. */
  function NonEmptyFrom(ps: seq<string>, i: nat): (ks: seq<nat>)
    requires i <= |ps|
    ensures forall k :: 0 <= k < |ks| ==> i <= ks[k] < |ps|
    decreases |ps| - i
  {
    if i == |ps| then []
    else (if ps[i] != [] then [i] else []) + NonEmptyFrom(ps, i + 1)
  }

  predicate Increasing(ks: seq<nat>) {
    forall k, k' :: 0 <= k < k' < |ks| ==> ks[k] < ks[k']
  }

  /** `NonEmptyFrom(ps, i)` lists, in increasing order, exactly the indices from `i` on of the
      non-empty strings of `ps`. */
  lemma {:induction false} NonEmptyFromMeaning(ps: seq<string>, i: nat)
    requires i <= |ps|
    ensures Increasing(NonEmptyFrom(ps, i))
    ensures forall k :: 0 <= k < |NonEmptyFrom(ps, i)| ==> ps[NonEmptyFrom(ps, i)[k]] != []
    ensures forall j :: i <= j < |ps| && ps[j] != [] ==> j in NonEmptyFrom(ps, i)
  {
    NonEmptyFromIncreasing(ps, i);
    NonEmptyFromSelects(ps, i);
    forall j | i <= j < |ps| && ps[j] != [] ensures j in NonEmptyFrom(ps, i) {
      NonEmptyFromCovers(ps, i, j);
    }
  }

  lemma {:induction false} NonEmptyFromIncreasing(ps: seq<string>, i: nat)
    requires i <= |ps|
    ensures Increasing(NonEmptyFrom(ps, i))
    decreases |ps| - i
  {
    if i < |ps| && ps[i] != [] {
      NonEmptyFromIncreasing(ps, i + 1);
      var ks := NonEmptyFrom(ps, i + 1);
      assert NonEmptyFrom(ps, i) == [i] + ks;
    } else if i < |ps| {
      NonEmptyFromIncreasing(ps, i + 1);
    }
  }

  lemma {:induction false} NonEmptyFromSelects(ps: seq<string>, i: nat)
    requires i <= |ps|
    ensures forall k :: 0 <= k < |NonEmptyFrom(ps, i)| ==> ps[NonEmptyFrom(ps, i)[k]] != []
    decreases |ps| - i
  {
    if i < |ps| && ps[i] != [] {
      NonEmptyFromSelects(ps, i + 1);
      var ks := NonEmptyFrom(ps, i + 1);
      assert NonEmptyFrom(ps, i) == [i] + ks;
    } else if i < |ps| {
      NonEmptyFromSelects(ps, i + 1);
    }
  }

  lemma {:induction false} NonEmptyFromCovers(ps: seq<string>, i: nat, j: nat)
    requires i <= j < |ps| && ps[j] != []
    ensures j in NonEmptyFrom(ps, i)
    decreases j - i
  {
    if i < j {
      NonEmptyFromCovers(ps, i + 1, j);
      var ks := NonEmptyFrom(ps, i + 1);
      assert NonEmptyFrom(ps, i) == (if ps[i] != [] then [i] else []) + ks;
    } else {
      assert NonEmptyFrom(ps, i)[0] == j;
    }
  }

  /** Dropping the empty strings of `ps[i..]` keeps those at `NonEmptyFrom(ps, i)`. */
  lemma {:induction false} DropEmptyFrom(ps: seq<string>, i: nat)
    requires i <= |ps|
    ensures |DropEmpty(ps[i..])| == |NonEmptyFrom(ps, i)|
    ensures forall k :: 0 <= k < |NonEmptyFrom(ps, i)| ==> DropEmpty(ps[i..])[k] == ps[NonEmptyFrom(ps, i)[k]]
    decreases |ps| - i
  {
    if i < |ps| {
      DropEmptyFrom(ps, i + 1);
      DropEmptyStep(ps, i, DropEmpty(ps[i + 1..]), NonEmptyFrom(ps, i + 1));
    } else {
      assert ps[i..] == [];
    }
  }

  /** One step of `DropEmptyFrom`, with the kept strings and indices after `i` named. */
  lemma {:induction false} DropEmptyStep(ps: seq<string>, i: nat, kept: seq<string>, ks: seq<nat>)
    requires i < |ps| && kept == DropEmpty(ps[i + 1..]) && ks == NonEmptyFrom(ps, i + 1)
    requires |kept| == |ks| && forall k :: 0 <= k < |ks| ==> kept[k] == ps[ks[k]]
    ensures |DropEmpty(ps[i..])| == |NonEmptyFrom(ps, i)|
    ensures forall k :: 0 <= k < |NonEmptyFrom(ps, i)| ==> DropEmpty(ps[i..])[k] == ps[NonEmptyFrom(ps, i)[k]]
  {
    assert ps[i..][1..] == ps[i + 1..] && ps[i..][0] == ps[i];
    if ps[i] != [] {
      assert NonEmptyFrom(ps, i) == [i] + ks;
      assert DropEmpty(ps[i..]) == [ps[i]] + kept;
    } else {
      assert NonEmptyFrom(ps, i) == ks;
      assert DropEmpty(ps[i..]) == kept;
    }
  }

  /** The indices of the parts `[p.strip() for p in parts if p.strip()]` keeps. */
  function KeptIndices(parts: seq<string>): (ks: seq<nat>)
    ensures forall k :: 0 <= k < |ks| ==> ks[k] < |parts|
  {
    NonEmptyFrom(StripAll(parts), 0)
  }

  /** Line 24 keeps exactly the parts that do not strip to blank, stripped, in their order: the
      k-th piece is the strip of the part at the k-th kept index, the kept indices increase, and
      every part that does not strip to blank has its index among them. */
  lemma {:induction false} KeepNonBlankIsSubsequence(parts: seq<string>)
    ensures |KeepNonBlank(parts)| == |KeptIndices(parts)| && Increasing(KeptIndices(parts))
    ensures forall k :: 0 <= k < |KeptIndices(parts)| ==> KeepNonBlank(parts)[k] == Strip(parts[KeptIndices(parts)[k]])
    ensures forall j :: 0 <= j < |parts| && Strip(parts[j]) != [] ==> j in KeptIndices(parts)
  {
    var sa := StripAll(parts);
    StripAllAt(parts);
    assert sa[0..] == sa;
    NonEmptyFromMeaning(sa, 0);
    DropEmptyFrom(sa, 0);
  }

  /** Every part that does not strip to blank is kept. */
  lemma {:induction false} KeepNonBlankKeeps(parts: seq<string>, j: nat)
    requires j < |parts| && Strip(parts[j]) != []
    ensures Strip(parts[j]) in KeepNonBlank(parts)
  {
    KeepNonBlankIsSubsequence(parts);
    var ks := KeptIndices(parts);
    var k :| 0 <= k < |ks| && ks[k] == j;
    assert KeepNonBlank(parts)[k] == Strip(parts[j]);
  }

  /**
   The delimiter-free runs of `s`, split at every delimiter character, in order: the plain
   `str.split` reading of the cell, without the regex.
   */
  function Runs(s: string): (r: seq<string>)
    ensures |r| > 0
    decreases |s|
  {
    var p := RunLength(s, 0, IsPlain);
    if p == |s| then [s] else [s[..p]] + Runs(s[p + 1..])
  }

  /** One unfolding of `Runs` at a delimiter found at `p`. */
  lemma {:induction false} RunsStep(t: string, p: nat)
    requires p < |t| && RunLength(t, 0, IsPlain) == p
    ensures Runs(t) == [t[..p]] + Runs(t[p + 1..])
  {
  }

  /** Runs hold no delimiter, and there is one more run than there are delimiters. */
  lemma {:induction false} RunsAreDelimiterFree(s: string)
    ensures forall k :: 0 <= k < |Runs(s)| ==> NoDelimiter(Runs(s)[k])
    ensures |Runs(s)| == 1 + DelimiterCount(s)
    decreases |s|
  {
    var p := RunLength(s, 0, IsPlain);
    if p < |s| {
      RunsStep(s, p);
      RunsAreDelimiterFree(s[p + 1..]);
      DelimiterCountSplit(s, p);
    } else {
      NoDelimiterCount(s);
    }
  }

  lemma {:induction false} NoDelimiterCount(s: string)
    requires forall k :: 0 <= k < |s| ==> IsPlain(s[k])
    ensures DelimiterCount(s) == 0
    decreases |s|
  {
    if s != [] {
      NoDelimiterCount(s[1..]);
    }
  }

  function DelimiterCount(s: string): (r: nat) {
    if s == [] then 0 else (if IsDelimiter(s[0]) then 1 else 0) + DelimiterCount(s[1..])
  }

  /** Counting delimiters across a plain prefix and the delimiter that ends it. */
  lemma {:induction false} DelimiterCountSplit(s: string, p: nat)
    requires p < |s| && IsDelimiter(s[p]) && forall k :: 0 <= k < p ==> !IsDelimiter(s[k])
    ensures DelimiterCount(s) == 1 + DelimiterCount(s[p + 1..])
    decreases p
  {
    if p > 0 {
      DelimiterCountSplit(s[1..], p - 1);
      assert s[1..][p..] == s[p + 1..];
    } else {
      assert s[1..] == s[p + 1..];
    }
  }

  /** `_split_multi(value)`. */
  function SplitMulti(value: Option<string>): (r: seq<string>)
    ensures value.None? || value.value == [] ==> r == []
    ensures forall k :: 0 <= k < |r| ==> r[k] != [] && IsStripped(r[k]) && NoDelimiter(r[k])
  {
    if value.None? || value.value == [] then
      []
    else
      var r := KeepNonBlank(SplitFrom(value.value, 0));
      SplitMatchesRuns(value.value);
      RunsAreDelimiterFree(value.value);
      KeepNonBlankMeaning(Runs(value.value));
      KeepNoDelimiter(Runs(value.value));
      r
  }

  /** Stripping keeps delimiter-free pieces delimiter-free. */
  lemma {:induction false} KeepNoDelimiter(parts: seq<string>)
    requires forall k :: 0 <= k < |parts| ==> NoDelimiter(parts[k])
    ensures forall k :: 0 <= k < |KeepNonBlank(parts)| ==> NoDelimiter(KeepNonBlank(parts)[k])
  {
    KeepNonBlankMeaning(parts);
    var r := KeepNonBlank(parts);
    forall k | 0 <= k < |r| ensures NoDelimiter(r[k]) {
      var j :| 0 <= j < |parts| && r[k] == Strip(parts[j]);
      StripKeepsCharacters(parts[j]);
      forall i | 0 <= i < |r[k]| ensures !IsDelimiter(r[k][i]) {
        assert r[k][i] in parts[j];
      }
    }
  }

  /** The run length of a suffix is the run length inside the whole string. */
  lemma {:induction false} RunLengthSuffix(s: string, i: nat, p: char -> bool)
    requires i <= |s|
    ensures RunLength(s[i..], 0, p) == RunLength(s, i, p)
  {
    var n := RunLength(s, i, p);
    var m := RunLength(s[i..], 0, p);
    assert forall k :: i <= k < i + m ==> p(s[k]) by {
      assert forall k :: i <= k < i + m ==> s[k] == s[i..][k - i];
    }
    RunCovers(s, i, p, i + m);
    assert forall k :: 0 <= k < n ==> p(s[i..][k]) by {
      assert forall k :: 0 <= k < n ==> s[i..][k] == s[i + k];
    }
    RunCovers(s[i..], 0, p, n);
  }

  /** The runs of a string with a delimiter right after a delimiter-free prefix `x`. */
  lemma {:induction false} RunsCons(x: string, d: char, y: string)
    requires NoDelimiter(x) && IsDelimiter(d)
    ensures Runs(x + [d] + y) == [x] + Runs(y)
  {
    var s := x + [d] + y;
    assert forall k :: 0 <= k < |x| ==> IsPlain(s[k]) by {
      assert forall k :: 0 <= k < |x| ==> s[k] == x[k];
    }
    RunCovers(s, 0, IsPlain, |x|);
    assert s[|x|] == d;
    RunsStep(s, |x|);
    assert s[..|x|] == x && s[|x| + 1..] == y;
  }

  /** A delimiter-free string is a single run. */
  lemma {:induction false} RunsSingle(x: string)
    requires NoDelimiter(x)
    ensures Runs(x) == [x]
  {
    RunCovers(x, 0, IsPlain, |x|);
  }

  /** A separator match starts at every delimiter. */
  lemma {:induction false} DelimiterStartsSeparator(s: string, d: nat)
    requires d < |s| && IsDelimiter(s[d])
    ensures SeparatorAt(s, d).Some?
  {
  }

  /** A slice made of whitespace characters is whitespace. */
  lemma {:induction false} SpaceSlice(s: string, lo: nat, hi: nat)
    requires lo <= hi <= |s| && forall k :: lo <= k < hi ==> IsSpace(s[k])
    ensures AllSpace(s[lo..hi])
  {
    assert forall k :: lo <= k < hi ==> s[lo..hi][k - lo] == s[k];
  }

  /** Where no separator match is left, no delimiter is left. */
  lemma {:induction false} NoSeparatorNoDelimiter(s: string, i: nat, j: nat)
    requires i <= j <= |s| && NextSeparator(s, j).None?
    requires forall k :: i <= k < j ==> IsSpace(s[k])
    ensures NoDelimiter(s[i..])
  {
    forall k | 0 <= k < |s| - i ensures !IsDelimiter(s[i..][k]) {
      assert s[i..][k] == s[i + k];
      if IsDelimiter(s[i + k]) && j <= i + k {
        DelimiterStartsSeparator(s, i + k);
        NextSeparatorSkips(s, j, NextSeparator(s, j), i + k);
      }
    }
  }

  /** The first delimiter at or after `i` is the one the leftmost separator match after `j`
      contains, when only whitespace lies between `i` and `j`. */
  lemma {:induction false} SeparatorHoldsFirstDelimiter(s: string, i: nat, j: nat, a: nat, e: nat)
    requires i <= j <= |s| && NextSeparator(s, j) == Some((a, e))
    requires forall k :: i <= k < j ==> IsSpace(s[k])
    ensures RunLength(s, i, IsPlain) == a + RunLength(s, a, IsSpace) - i
  {
    NextSeparatorFound(s, j, Some((a, e)));
    var w := RunLength(s, a, IsSpace);
    forall k | i <= k < a + w ensures IsPlain(s[k]) {
      if j <= k < a && IsDelimiter(s[k]) {
        DelimiterStartsSeparator(s, k);
        NextSeparatorSkips(s, j, Some((a, e)), k);
      }
    }
    RunCovers(s, i, IsPlain, a + w);
  }

  /** Where no separator match is left after `j`, the rest of the text from `i` is one run, and
      it strips like the last piece of the regex split. */
  lemma {:induction false} LastPieceMatches(s: string, i: nat, j: nat)
    requires i <= j <= |s| && NextSeparator(s, j).None?
    requires forall k :: i <= k < j ==> IsSpace(s[k])
    ensures StripAll(SplitFrom(s, j)) == StripAll(Runs(s[i..]))
  {
    NoSeparatorNoDelimiter(s, i, j);
    RunsSingle(s[i..]);
    assert SplitFrom(s, j) == [s[j..]];
    StripFromSpace(s, i, j, |s|);
    assert s[j..|s|] == s[j..] && s[i..|s|] == s[i..];
    StripAllSingle(s[j..]);
    StripAllSingle(s[i..]);
  }

  /** Text strips alike with or without whitespace in front. */
  lemma {:induction false} StripFromSpace(s: string, i: nat, j: nat, l: nat)
    requires i <= j <= l <= |s|
    requires forall k :: i <= k < j ==> IsSpace(s[k])
    ensures Strip(s[j..l]) == Strip(s[i..l])
  {
    SpaceSlice(s, i, j);
    assert s[i..l] == s[i..j] + s[j..l];
    StripSpacePrefix(s[i..j], s[j..l]);
  }

  /** Text strips alike with or without whitespace after it. */
  lemma {:induction false} StripToSpace(s: string, i: nat, j: nat, l: nat)
    requires i <= j <= l <= |s|
    requires forall k :: j <= k < l ==> IsSpace(s[k])
    ensures Strip(s[i..j]) == Strip(s[i..l])
  {
    SpaceSlice(s, j, l);
    assert s[i..l] == s[i..j] + s[j..l];
    StripSpaceSuffix(s[i..j], s[j..l]);
  }

  /** The first delimiter of `s[i..]` is the one inside the leftmost separator match after `j`. */
  lemma {:induction false} FirstPieceLength(s: string, i: nat, j: nat, a: nat, e: nat, d: nat)
    requires i <= j <= |s| && NextSeparator(s, j) == Some((a, e))
    requires forall k :: i <= k < j ==> IsSpace(s[k])
    requires d == a + RunLength(s, a, IsSpace)
    ensures i <= d < e && RunLength(s[i..], 0, IsPlain) == d - i
  {
    NextSeparatorFound(s, j, Some((a, e)));
    RunLengthSuffix(s, i, IsPlain);
    SeparatorHoldsFirstDelimiter(s, i, j, a, e);
  }

  /** The runs of a suffix whose first delimiter is at `d`. */
  lemma {:induction false} RunsSplitAt(s: string, i: nat, d: nat)
    requires i <= d < |s| && RunLength(s[i..], 0, IsPlain) == d - i
    ensures Runs(s[i..]) == [s[i..d]] + Runs(s[d + 1..])
  {
    var t := s[i..];
    RunsStep(t, d - i);
    assert t[..d - i] == s[i..d];
    assert t[d - i + 1..] == s[d + 1..];
  }

  /** The first delimiter run of `s[i..]` ends where the leftmost separator match after `j` has
      its delimiter, and the runs continue right after that delimiter. */
  lemma {:induction false} FirstPieceRun(s: string, i: nat, j: nat, a: nat, e: nat, d: nat)
    requires i <= j <= |s| && NextSeparator(s, j) == Some((a, e))
    requires forall k :: i <= k < j ==> IsSpace(s[k])
    requires d == a + RunLength(s, a, IsSpace)
    ensures i <= d < e && Runs(s[i..]) == [s[i..d]] + Runs(s[d + 1..])
  {
    FirstPieceLength(s, i, j, a, e, d);
    RunsSplitAt(s, i, d);
  }

  /** Whitespace follows the delimiter of a separator match up to its end. */
  lemma {:induction false} SeparatorTail(s: string, a: nat, e: nat)
    requires a <= |s| && SeparatorAt(s, a) == Some(e)
    ensures var d := a + RunLength(s, a, IsSpace);
      d < e <= |s| && forall k :: d + 1 <= k < e ==> IsSpace(s[k])
  {
  }

  /** One separator of the regex split against one delimiter run, given the rest matches. */
  lemma {:induction false} SplitStep(s: string, i: nat, j: nat, a: nat, e: nat, d: nat)
    requires i <= j <= |s| && NextSeparator(s, j) == Some((a, e))
    requires forall k :: i <= k < j ==> IsSpace(s[k])
    requires d == a + RunLength(s, a, IsSpace) && d < e
    requires StripAll(SplitFrom(s, e)) == StripAll(Runs(s[d + 1..]))
    ensures StripAll(SplitFrom(s, j)) == StripAll(Runs(s[i..]))
  {
    FirstPieceRun(s, i, j, a, e, d);
    var x, y := s[j..a], s[i..d];
    assert Strip(x) == Strip(y) by {
      StripFromSpace(s, i, j, a);
      StripToSpace(s, i, a, d);
    }
    var xs, ys := SplitFrom(s, e), Runs(s[d + 1..]);
    assert SplitFrom(s, j) == [x] + xs;
    assert Runs(s[i..]) == [y] + ys;
    StripAllConsEq(x, xs, y, ys);
  }

  /**
   After stripping, the regex split from `j` gives the same pieces as the delimiter runs of
   `s[i..]`, when only whitespace lies between `i` and `j`.
   */
  lemma {:induction false} SplitFromMatchesRuns(s: string, i: nat, j: nat)
    requires i <= j <= |s| && forall k :: i <= k < j ==> IsSpace(s[k])
    ensures StripAll(SplitFrom(s, j)) == StripAll(Runs(s[i..]))
    decreases |s| - j
  {
    match NextSeparator(s, j)
    case None =>
      LastPieceMatches(s, i, j);
    case Some((a, e)) =>
      NextSeparatorFound(s, j, Some((a, e)));
      SeparatorTail(s, a, e);
      var d := a + RunLength(s, a, IsSpace);
      SplitFromMatchesRuns(s, d + 1, e);
      SplitStep(s, i, j, a, e, d);
  }

  /** `_split_multi` equals stripping the delimiter runs of the cell and dropping blank ones. */
  lemma {:induction false} SplitMatchesRuns(s: string)
    ensures KeepNonBlank(SplitFrom(s, 0)) == KeepNonBlank(Runs(s))
  {
    assert s[0..] == s;
    SplitFromMatchesRuns(s, 0, 0);
  }

  /** Every piece `_split_multi` returns is non-empty, stripped and delimiter-free, and the pieces
      are the stripped non-blank delimiter runs of the cell, in order. */
  lemma {:induction false} SplitMultiIsStrippedRuns(s: string)
    ensures SplitMulti(Some(s)) == KeepNonBlank(Runs(s))
  {
    SplitMatchesRuns(s);
    if s == [] {
      assert Runs(s) == [s];
    }
  }

  /** A non-blank cell without a delimiter splits into the single stripped cell. */
  lemma {:induction false} SplitMultiSingle(s: string)
    requires NoDelimiter(s) && !AllSpace(s)
    ensures SplitMulti(Some(s)) == [Strip(s)]
  {
    SplitMultiIsStrippedRuns(s);
    RunsSingle(s);
    StripBlank(s);
    KeepNonBlankCons(s, []);
    assert [s] + [] == [s];
  }

  /** `sep.join(parts)`. */
  function Join(parts: seq<string>, sep: string): (r: string)
    ensures |parts| == 1 ==> r == parts[0]
  {
    if |parts| == 0 then "" else if |parts| == 1 then parts[0] else parts[0] + sep + Join(parts[1..], sep)
  }

  /** What `_split_multi` returns: non-empty, stripped and delimiter-free. */
  predicate IsPiece(p: string) {
    p != [] && IsStripped(p) && NoDelimiter(p)
  }

  lemma {:induction false} StripAllCons(x: string, rest: seq<string>)
    ensures StripAll([x] + rest) == [Strip(x)] + StripAll(rest)
  {
    assert ([x] + rest)[1..] == rest;
  }

  /** Lists whose heads strip alike and whose tails strip alike strip alike. */
  lemma {:induction false} StripAllConsEq(x: string, xs: seq<string>, y: string, ys: seq<string>)
    requires Strip(x) == Strip(y) && StripAll(xs) == StripAll(ys)
    ensures StripAll([x] + xs) == StripAll([y] + ys)
  {
    StripAllCons(x, xs);
    StripAllCons(y, ys);
  }

  lemma {:induction false} StripAllSingle(x: string)
    ensures StripAll([x]) == [Strip(x)]
  {
    StripAllCons(x, []);
    assert [x] + [] == [x];
  }

  /** Keeping the pieces of a list that starts with `x`. */
  lemma {:induction false} KeepNonBlankCons(x: string, rest: seq<string>)
    ensures KeepNonBlank([x] + rest)
         == (if Strip(x) != [] then [Strip(x)] else []) + KeepNonBlank(rest)
  {
    StripAllCons(x, rest);
    assert ([Strip(x)] + StripAll(rest))[1..] == StripAll(rest);
  }

  /** Whitespace followed by a piece has no delimiter. */
  lemma {:induction false} PaddedPiece(w: string, p: string)
    requires AllSpace(w) && IsPiece(p)
    ensures NoDelimiter(w + p)
  {
    forall k | 0 <= k < |w + p| ensures !IsDelimiter((w + p)[k]) {
      if k < |w| { assert IsSpace(w[k]); } else { assert (w + p)[k] == p[k - |w|]; }
    }
  }

  /** A single piece after whitespace splits back into itself. */
  lemma {:induction false} KeepRunsOfPiece(w: string, p: string)
    requires AllSpace(w) && IsPiece(p)
    ensures KeepNonBlank(Runs(w + p)) == [p]
  {
    PaddedPiece(w, p);
    StripSpacePrefix(w, p);
    StripStripped(p);
    RunsSingle(w + p);
    KeepNonBlankCons(w + p, []);
    assert [w + p] + [] == [w + p];
  }

  /** One more piece in front of a joined list that already splits back. */
  lemma {:induction false} KeepRunsOfJoinStep(w: string, p: string, rest: seq<string>)
    requires AllSpace(w) && IsPiece(p) && |rest| > 0
    requires KeepNonBlank(Runs(" " + Join(rest, "; "))) == rest
    ensures KeepNonBlank(Runs(w + Join([p] + rest, "; "))) == [p] + rest
  {
    var tail := " " + Join(rest, "; ");
    PaddedPiece(w, p);
    JoinCons(w, p, rest);
    RunsCons(w + p, ';', tail);
    KeepPaddedPiece(w, p, Runs(tail));
  }

  /** Joining a list with a piece in front. */
  lemma {:induction false} JoinCons(w: string, p: string, rest: seq<string>)
    requires |rest| > 0
    ensures w + Join([p] + rest, "; ") == (w + p) + [';'] + (" " + Join(rest, "; "))
  {
    var j := Join(rest, "; ");
    assert Join([p] + rest, "; ") == p + "; " + j by {
      assert ([p] + rest)[1..] == rest;
    }
    Regroup(w, p, j);
  }

  lemma {:induction false} Regroup(w: string, p: string, j: string)
    ensures w + (p + "; " + j) == (w + p) + [';'] + (" " + j)
  {
    assert "; " == [';'] + " ";
  }

  /** A piece after whitespace at the head of a list is kept as the piece. */
  lemma {:induction false} KeepPaddedPiece(w: string, p: string, more: seq<string>)
    requires AllSpace(w) && IsPiece(p)
    ensures KeepNonBlank([w + p] + more) == [p] + KeepNonBlank(more)
  {
    StripSpacePrefix(w, p);
    StripStripped(p);
    KeepNonBlankCons(w + p, more);
  }

  /** Splitting pieces joined with "; " (after any leading whitespace) gives the pieces back. */
  lemma {:induction false} KeepRunsOfJoin(w: string, parts: seq<string>)
    requires AllSpace(w) && |parts| > 0
    requires forall k :: 0 <= k < |parts| ==> IsPiece(parts[k])
    ensures KeepNonBlank(Runs(w + Join(parts, "; "))) == parts
    decreases |parts|
  {
    if |parts| == 1 {
      KeepRunsOfPiece(w, parts[0]);
    } else {
      var rest := parts[1..];
      assert forall k :: 0 <= k < |rest| ==> rest[k] == parts[k + 1];
      assert AllSpace(" ");
      KeepRunsOfJoin(" ", rest);
      KeepRunsOfJoinStep(w, parts[0], rest);
      assert [parts[0]] + rest == parts;
    }
  }

  /** `_split_multi` is idempotent: splitting its own output joined with "; " gives it back. */
  lemma {:induction false} SplitMultiIdempotent(value: Option<string>)
    ensures SplitMulti(Some(Join(SplitMulti(value), "; "))) == SplitMulti(value)
  {
    var parts := SplitMulti(value);
    if parts != [] {
      SplitMultiIsStrippedRuns(Join(parts, "; "));
      KeepRunsOfJoin("", parts);
      assert "" + Join(parts, "; ") == Join(parts, "; ");
    }
  }
}
