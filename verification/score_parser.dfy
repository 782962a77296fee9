/**
 The score reader `_parse_score`: the first number in noisy text such as "[9]", "88%" or " 7.5 ",
 found the way `re.search(r'[-+]?\d*\.?\d+', s)` finds it. The result is the matched text; the
 final `float(...)` conversion of that text is not modelled.
 */
module ScoreParser {
  import opened Options
  import opened Text

  /** Members of the language `\d*\.?\d+`: digits, or digits, one dot and at least one digit. */
  ghost predicate IsUnsignedNumber(u: string) {
    || (|u| > 0 && AllDigits(u))
    || (exists d :: 0 <= d < |u| - 1 && u[d] == '.' && AllDigits(u[..d]) && AllDigits(u[d + 1..]))
  }

  /** Members of the language `[-+]?\d*\.?\d+`. */
  ghost predicate IsNumberToken(t: string) {
    || IsUnsignedNumber(t)
    || (|t| > 0 && IsSign(t[0]) && IsUnsignedNumber(t[1..]))
  }

  /** Every number token ends in a digit (the pattern closes with `\d+`). */
  lemma {:induction false} TokenEndsInDigit(t: string)
    requires IsNumberToken(t)
    ensures |t| > 0 && IsDigit(t[|t| - 1])
  {
    var u := if IsUnsignedNumber(t) then t else t[1..];
    if !(|u| > 0 && AllDigits(u)) {
      var d :| 0 <= d < |u| - 1 && u[d] == '.' && AllDigits(u[..d]) && AllDigits(u[d + 1..]);
      assert u[|u| - 1] == u[d + 1..][|u| - d - 2];
    }
    assert t[|t| - 1] == u[|u| - 1];
  }

  /**
   Where the regex engine's match of `\d*\.?\d+` ends when it tries index `q`, if it matches
   there. `\d*` swallows the whole digit run and a dot is taken when one follows; `\d+` then
   needs a digit after the dot. Failing that, the engine backs `\d*` off by one digit so that
   `\d+` takes the last digit of the run, which succeeds exactly when the run is non-empty.
   */
  function UnsignedEnd(s: string, q: nat): (r: Option<nat>)
    requires q <= |s|
    ensures r.Some? ==> q < r.value <= |s|
  {
    var n := RunLength(s, q, IsDigit);
    if q + n < |s| && s[q + n] == '.' && RunLength(s, q + n + 1, IsDigit) > 0 then
      Some(q + n + 1 + RunLength(s, q + n + 1, IsDigit))
    else if n > 0 then
      Some(q + n)
    else
      None
  }

  /** The index just past the optional sign at `i`. */
  function AfterSign(s: string, i: nat): (q: nat)
    requires i <= |s|
    ensures i <= q <= |s| && q <= i + 1
    ensures q == i + 1 <==> i < |s| && IsSign(s[i])
  {
    if i < |s| && IsSign(s[i]) then i + 1 else i
  }

  /** Where the engine's match of `[-+]?\d*\.?\d+` ends when it tries index `i`: the sign is
      taken if there is one, since giving it back never helps (a sign is neither a digit nor a
      dot). */
  function MatchAt(s: string, i: nat): (r: Option<nat>)
    requires i <= |s|
    ensures r.Some? ==> i < r.value <= |s|
  {
    UnsignedEnd(s, AfterSign(s, i))
  }

  /** A digit run is an unsigned number. */
  lemma {:induction false} DigitsAreNumber(s: string, q: nat, e: nat)
    requires q < e <= |s|
    requires forall k :: q <= k < e ==> IsDigit(s[k])
    ensures IsUnsignedNumber(s[q..e])
  {
    var u := s[q..e];
    forall k | 0 <= k < |u| ensures IsDigit(u[k]) {
      assert u[k] == s[q + k];
    }
  }

  /** Digits, a dot and at least one digit make an unsigned number. */
  lemma {:induction false} DottedIsNumber(s: string, q: nat, d: nat, e: nat)
    requires q + d + 1 < e <= |s| && s[q + d] == '.'
    requires forall k :: q <= k < q + d ==> IsDigit(s[k])
    requires forall k :: q + d + 1 <= k < e ==> IsDigit(s[k])
    ensures IsUnsignedNumber(s[q..e])
  {
    var u := s[q..e];
    var a, b := u[..d], u[d + 1..];
    assert u[d] == '.';
    forall k | 0 <= k < |a| ensures IsDigit(a[k]) {
      assert a[k] == s[q + k];
    }
    forall k | 0 <= k < |b| ensures IsDigit(b[k]) {
      assert b[k] == s[q + d + 1 + k];
    }
  }

  /** What the engine matches at `q` after the sign is an unsigned number. */
  lemma {:induction false} UnsignedEndIsNumber(s: string, q: nat)
    requires q <= |s| && UnsignedEnd(s, q).Some?
    ensures q < UnsignedEnd(s, q).value <= |s|
    ensures IsUnsignedNumber(s[q..UnsignedEnd(s, q).value])
  {
    var n := RunLength(s, q, IsDigit);
    if q + n < |s| && s[q + n] == '.' && RunLength(s, q + n + 1, IsDigit) > 0 {
      DottedIsNumber(s, q, n, q + n + 1 + RunLength(s, q + n + 1, IsDigit));
    } else {
      DigitsAreNumber(s, q, q + n);
    }
  }

  /** A sign followed by an unsigned number is a number token, and so is an unsigned number. */
  lemma {:induction false} SignedIsToken(s: string, i: nat, e: nat)
    requires i <= |s| && AfterSign(s, i) < e <= |s| && IsUnsignedNumber(s[AfterSign(s, i)..e])
    ensures IsNumberToken(s[i..e])
  {
    if AfterSign(s, i) == i + 1 {
      assert s[i..e][1..] == s[i + 1..e];
    }
  }

  /** What the engine matches at `i` is a number token. */
  lemma {:induction false} MatchAtIsToken(s: string, i: nat)
    requires i <= |s| && MatchAt(s, i).Some?
    ensures i < MatchAt(s, i).value <= |s|
    ensures IsNumberToken(s[i..MatchAt(s, i).value])
  {
    UnsignedEndIsNumber(s, AfterSign(s, i));
    SignedIsToken(s, i, MatchAt(s, i).value);
  }

  /** A number token at `i` consists of the sign the text has there, if any, and an unsigned
      number after it. */
  lemma {:induction false} TokenAfterSign(s: string, i: nat, k: nat)
    requires i <= k <= |s| && IsNumberToken(s[i..k])
    ensures AfterSign(s, i) <= k && IsUnsignedNumber(s[AfterSign(s, i)..k])
  {
    var t := s[i..k];
    var q := AfterSign(s, i);
    if q == i + 1 {
      assert t[1..] == s[q..k];
    } else {
      assert t == s[q..k];
    }
  }

  /** A digit string at `q` lies inside the digit run there. */
  lemma {:induction false} DigitsWithinRun(s: string, q: nat, k: nat)
    requires q < k <= |s| && AllDigits(s[q..k])
    ensures 0 < RunLength(s, q, IsDigit) && k <= q + RunLength(s, q, IsDigit)
  {
    forall j | q <= j < k ensures IsDigit(s[j]) {
      assert s[j] == s[q..k][j - q];
    }
    RunCovers(s, q, IsDigit, k);
  }

  /** A number with a dot at `q + d` has its dot right after the digit run at `q` and its
      fraction inside the digit run after the dot. */
  lemma {:induction false} DottedWithinRuns(s: string, q: nat, k: nat, d: nat)
    requires q + d + 1 < k <= |s|
    requires s[q + d] == '.' && AllDigits(s[q..q + d]) && AllDigits(s[q + d + 1..k])
    ensures UnsignedEnd(s, q).Some? && k <= UnsignedEnd(s, q).value
  {
    forall j | q <= j < q + d ensures IsDigit(s[j]) {
      assert s[j] == s[q..q + d][j - q];
    }
    RunCovers(s, q, IsDigit, q + d);
    assert RunLength(s, q, IsDigit) == d;
    DigitsWithinRun(s, q + d + 1, k);
  }

  /** The dotted form of an unsigned number, with its dot at `q + d`. */
  lemma {:induction false} DottedParts(s: string, q: nat, k: nat, d: nat)
    requires q <= k <= |s| && 0 <= d < k - q - 1
    requires s[q..k][d] == '.' && AllDigits(s[q..k][..d]) && AllDigits(s[q..k][d + 1..])
    ensures s[q + d] == '.' && AllDigits(s[q..q + d]) && AllDigits(s[q + d + 1..k])
  {
    assert s[q..k][..d] == s[q..q + d];
    assert s[q..k][d + 1..] == s[q + d + 1..k];
  }

  /** An unsigned number at `q` ends within the part of the text the engine's match covers. */
  lemma {:induction false} UnsignedWithinMatch(s: string, q: nat, k: nat)
    requires q <= k <= |s| && IsUnsignedNumber(s[q..k])
    ensures UnsignedEnd(s, q).Some? && k <= UnsignedEnd(s, q).value
  {
    var u := s[q..k];
    if |u| > 0 && AllDigits(u) {
      DigitsWithinRun(s, q, k);
    } else {
      var d :| 0 <= d < |u| - 1 && u[d] == '.' && AllDigits(u[..d]) && AllDigits(u[d + 1..]);
      DottedParts(s, q, k, d);
      DottedWithinRuns(s, q, k, d);
    }
  }

  /** No number token starting at `i` is longer than the engine's match there, and none exists
      where the engine finds no match. */
  lemma {:induction false} TokenWithinMatch(s: string, i: nat, k: nat)
    requires i <= k <= |s| && IsNumberToken(s[i..k])
    ensures MatchAt(s, i).Some? && k <= MatchAt(s, i).value
  {
    TokenAfterSign(s, i, k);
    UnsignedWithinMatch(s, AfterSign(s, i), k);
  }

  /** `re.search` from index `i` on: the leftmost index where the pattern matches, with the span
      the engine matches there. */
  function SearchFrom(s: string, i: nat): (r: Option<(nat, nat)>)
    requires i <= |s|
    ensures r.Some? ==> i <= r.value.0 < r.value.1 <= |s|
    decreases |s| - i
  {
    match MatchAt(s, i)
    case Some(e) => Some((i, e))
    case None => if i == |s| then None else SearchFrom(s, i + 1)
  }

  /** What the search finds is a match of the engine. */
  lemma {:induction false} SearchFromFound(s: string, i: nat, r: Option<(nat, nat)>)
    requires i <= |s| && r == SearchFrom(s, i) && r.Some?
    ensures MatchAt(s, r.value.0) == Some(r.value.1)
    decreases |s| - i
  {
    if MatchAt(s, i).None? {
      SearchFromFound(s, i + 1, SearchFrom(s, i + 1));
    }
  }

  /** Before what the search finds, and everywhere when it finds nothing, the engine does not
      match. */
  lemma {:induction false} SearchFromSkips(s: string, i: nat, r: Option<(nat, nat)>, j: nat)
    requires i <= j <= |s| && r == SearchFrom(s, i)
    requires r.Some? ==> j < r.value.0
    ensures MatchAt(s, j).None?
    decreases j - i
  {
    if j > i {
      assert MatchAt(s, i).None? && i < |s|;
      SearchFromSkips(s, i + 1, SearchFrom(s, i + 1), j);
    }
  }

  /** Where the engine finds no match, no number token starts. */
  lemma {:induction false} NoMatchNoToken(s: string, j: nat)
    requires j <= |s| && MatchAt(s, j).None?
    ensures forall k :: j <= k <= |s| ==> !IsNumberToken(s[j..k])
  {
    forall k | j <= k <= |s| ensures !IsNumberToken(s[j..k]) {
      if IsNumberToken(s[j..k]) {
        TokenWithinMatch(s, j, k);
      }
    }
  }

  /** The engine's match is a number token and no longer token starts where it does. */
  lemma {:induction false} MatchLongest(s: string, j: nat, e: nat)
    requires j <= |s| && MatchAt(s, j) == Some(e)
    ensures IsNumberToken(s[j..e])
    ensures forall k :: e < k <= |s| ==> !IsNumberToken(s[j..k])
  {
    MatchAtIsToken(s, j);
    forall k | e < k <= |s| ensures !IsNumberToken(s[j..k]) {
      if IsNumberToken(s[j..k]) {
        TokenWithinMatch(s, j, k);
      }
    }
  }

  /** The engine matches at every digit. */
  lemma {:induction false} DigitMatches(s: string, j: nat)
    requires j < |s| && IsDigit(s[j])
    ensures MatchAt(s, j).Some?
  {
    assert AfterSign(s, j) == j;
    assert RunLength(s, j, IsDigit) > 0;
  }

  /** The search finds a number token; no token starts before it, no longer token starts where
      it does; and it finds nothing exactly when no digit is left. */
  lemma {:induction false} SearchFromMeaning(s: string, i: nat, r: Option<(nat, nat)>)
    requires i <= |s| && r == SearchFrom(s, i)
    ensures r.Some? ==> IsNumberToken(s[r.value.0..r.value.1])
    ensures r.Some? ==> forall j, k :: i <= j < r.value.0 && j <= k <= |s| ==> !IsNumberToken(s[j..k])
    ensures r.Some? ==> forall k :: r.value.1 < k <= |s| ==> !IsNumberToken(s[r.value.0..k])
    ensures r.None? <==> forall j :: i <= j < |s| ==> !IsDigit(s[j])
  {
    if r.Some? {
      SearchFromLongest(s, i, r);
      SearchFromLeftmost(s, i, r);
    } else {
      SearchFromNothing(s, i, r);
    }
  }

  /** What the search finds is the longest number token at its index, and ends in a digit. */
  lemma {:induction false} SearchFromLongest(s: string, i: nat, r: Option<(nat, nat)>)
    requires i <= |s| && r == SearchFrom(s, i) && r.Some?
    ensures IsNumberToken(s[r.value.0..r.value.1])
    ensures forall k :: r.value.1 < k <= |s| ==> !IsNumberToken(s[r.value.0..k])
    ensures i <= r.value.1 - 1 < |s| && IsDigit(s[r.value.1 - 1])
  {
    var (j, e) := r.value;
    SearchFromFound(s, i, r);
    MatchLongest(s, j, e);
    TokenEndsInDigit(s[j..e]);
    assert s[j..e][e - j - 1] == s[e - 1];
  }

  /** No number token starts before what the search finds. */
  lemma {:induction false} SearchFromLeftmost(s: string, i: nat, r: Option<(nat, nat)>)
    requires i <= |s| && r == SearchFrom(s, i) && r.Some?
    ensures forall j, k :: i <= j < r.value.0 && j <= k <= |s| ==> !IsNumberToken(s[j..k])
  {
    forall j, k | i <= j < r.value.0 && j <= k <= |s| ensures !IsNumberToken(s[j..k]) {
      SearchFromSkips(s, i, r, j);
      NoMatchNoToken(s, j);
    }
  }

  /** A search that finds nothing has passed no digit. */
  lemma {:induction false} SearchFromNothing(s: string, i: nat, r: Option<(nat, nat)>)
    requires i <= |s| && r == SearchFrom(s, i) && r.None?
    ensures forall j :: i <= j < |s| ==> !IsDigit(s[j])
  {
    forall j | i <= j < |s| ensures !IsDigit(s[j]) {
      if IsDigit(s[j]) {
        DigitMatches(s, j);
        SearchFromSkips(s, i, r, j);
      }
    }
  }


  /** `tok` is the first number of `t`: it occurs at `i`, no number token starts before `i`, and
      no longer number token starts at `i`. */
  ghost predicate IsFirstNumberAt(t: string, i: int, tok: string) {
    && 0 <= i && i + |tok| <= |t|
    && t[i..i + |tok|] == tok
    && IsNumberToken(tok)
    && (forall j, k :: 0 <= j < i && j <= k <= |t| ==> !IsNumberToken(t[j..k]))
    && (forall k :: i + |tok| < k <= |t| ==> !IsNumberToken(t[i..k]))
  }

  /** A text has at most one first number. */
  lemma {:induction false} FirstNumberUnique(t: string, i: int, a: string, j: int, b: string)
    requires IsFirstNumberAt(t, i, a) && IsFirstNumberAt(t, j, b)
    ensures i == j && a == b
  {
  }

  /**
   `_parse_score(s)`: `None` for `None`, for the empty string, for whitespace and for text with no
   digit; otherwise the text of the first number in the stripped input, as `re.search` finds it.
   */
  function ParseScore(s: Option<string>): (r: Option<string>)
    ensures r.None? <==> s.None? || !HasDigit(s.value)
    ensures r.Some? ==> IsNumberToken(r.value) && IsDigit(r.value[|r.value| - 1])
    ensures r.Some? ==> exists i :: IsFirstNumberAt(Strip(s.value), i, r.value)
  {
    if s.None? || s.value == "" then
      None
    else
      var t := Strip(s.value);
      StripKeepsCharacters(s.value);
      if t == "" then
        None
      else
        SearchFromMeaning(t, 0, SearchFrom(t, 0));
        match SearchFrom(t, 0)
        case None => None
        case Some((i, e)) =>
          TokenEndsInDigit(t[i..e]);
          assert IsFirstNumberAt(t, i, t[i..e]);
          Some(t[i..e])
  }
}
