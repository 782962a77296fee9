/**
 Worked cases of the cell parsers. The bracketed, percent and padded decimal scores are the
 examples `_parse_score` names in its own comment; the others are small inputs that show the
 regex's backtracking, a cell without a number, lenient age parsing and a grade cell with
 mixed delimiters.
 */
module WorkedCases {
  import opened Options
  import opened Text
  import opened Numerals
  import opened ScoreParser
  import opened FieldSplitter
  import opened CsvIngest

  lemma {:induction false} BracketMatchSkipsBracket()
    ensures MatchAt("[9]", 0) == None
    ensures MatchAt("[9]", 1) == Some(2)
  {
    assert RunLength("[9]", 0, IsDigit) == 0;
    assert RunLength("[9]", 2, IsDigit) == 0;
    assert RunLength("[9]", 1, IsDigit) == 1;
  }

  lemma {:induction false} BracketSearch()
    ensures SearchFrom("[9]", 0) == Some((1, 2))
  {
    BracketMatchSkipsBracket();
    assert SearchFrom("[9]", 1) == Some((1, 2));
  }

  /** A text scores the first match the search finds in its non-blank strip. */
  lemma {:induction false} ScoreOfStrip(s: string, t: string, i: nat, e: nat)
    requires s != [] && Strip(s) == t && t != [] && SearchFrom(t, 0) == Some((i, e))
    ensures ParseScore(Some(s)) == Some(t[i..e])
  {
  }

  /** A stripped non-blank text scores the first match the search finds in it. */
  lemma {:induction false} ScoreOfSearch(t: string, i: nat, e: nat)
    requires t != [] && IsStripped(t) && SearchFrom(t, 0) == Some((i, e))
    ensures ParseScore(Some(t)) == Some(t[i..e])
  {
    StripStripped(t);
    ScoreOfStrip(t, t, i, e);
  }

  /** A text without a digit scores nothing. */
  lemma {:induction false} NoDigitNoScore(t: string)
    requires !HasDigit(t)
    ensures ParseScore(Some(t)) == None
  {
  }

  /** `"[9]"` scores 9. */
  lemma {:induction false} BracketedScore()
    ensures ParseScore(Some("[9]")) == Some("9")
  {
    BracketSearch();
    ScoreOfSearch("[9]", 1, 2);
    assert "[9]"[1..2] == "9";
  }

  lemma {:induction false} PercentMatch()
    ensures MatchAt("88%", 0) == Some(2)
  {
    assert RunLength("88%", 0, IsDigit) == 2;
    assert RunLength("88%", 2, IsDigit) == 0;
  }

  /** `"88%"` scores 88. */
  lemma {:induction false} PercentScore()
    ensures ParseScore(Some("88%")) == Some("88")
  {
    PercentMatch();
    assert "88%"[..2] == "88";
    ScoreAtStart("88%", 2, "88");
  }

  /** A stripped cell where the engine matches at once scores the match. */
  lemma {:induction false} ScoreAtStart(t: string, e: nat, tok: string)
    requires t != [] && IsStripped(t) && MatchAt(t, 0) == Some(e) && t[..e] == tok
    ensures ParseScore(Some(t)) == Some(tok)
  {
    assert SearchFrom(t, 0) == Some((0, e));
    ScoreOfSearch(t, 0, e);
    assert t[0..e] == t[..e];
  }

  lemma {:induction false} DecimalMatch()
    ensures MatchAt("7.5", 0) == Some(3)
  {
    assert RunLength("7.5", 0, IsDigit) == 1;
    assert RunLength("7.5", 2, IsDigit) == 1;
  }

  /** `" 7.5 "` scores 7.5: the value is stripped first, and the match takes the decimal part. */
  lemma {:induction false} PaddedDecimalScore()
    ensures ParseScore(Some(" 7.5 ")) == Some("7.5")
  {
    assert Pads(" 7.5 ", 1, "7.5");
    StripUnique(" 7.5 ", 1, "7.5");
    DecimalMatch();
    assert SearchFrom("7.5", 0) == Some((0, 3));
    ScoreOfStrip(" 7.5 ", "7.5", 0, 3);
    assert "7.5"[0..3] == "7.5";
  }

  lemma {:induction false} SecondDotMatch()
    ensures MatchAt("12.5.6", 0) == Some(4)
  {
    assert RunLength("12.5.6", 0, IsDigit) == 2;
    assert RunLength("12.5.6", 3, IsDigit) == 1;
  }

  /** `"12.5.6"` scores 12.5: the match stops before a second dot. */
  lemma {:induction false} SecondDotScore()
    ensures ParseScore(Some("12.5.6")) == Some("12.5")
  {
    SecondDotMatch();
    assert "12.5.6"[..4] == "12.5";
    ScoreAtStart("12.5.6", 4, "12.5");
  }

  lemma {:induction false} TrailingDotMatch()
    ensures MatchAt("12.", 0) == Some(2)
  {
    assert RunLength("12.", 0, IsDigit) == 2;
    assert RunLength("12.", 3, IsDigit) == 0;
  }

  /** `"12."` scores 12: a dot with no digit after it is left out of the match. */
  lemma {:induction false} TrailingDotScore()
    ensures ParseScore(Some("12.")) == Some("12")
  {
    TrailingDotMatch();
    assert "12."[..2] == "12";
    ScoreAtStart("12.", 2, "12");
  }

  /** A cell without a digit has no score. */
  lemma {:induction false} NoNumberNoScore()
    ensures ParseScore(Some("n/a")) == None
    ensures ParseScore(Some("")) == None
    ensures ParseScore(None) == None
  {
    assert !HasDigit("n/a") by {
      assert "n/a"[0] == 'n' && "n/a"[1] == '/' && "n/a"[2] == 'a';
    }
    NoDigitNoScore("n/a");
    NoDigitNoScore("");
  }

  /** An age that is not a whole number is dropped; one that is, is kept. */
  lemma {:induction false} AgeCells()
    ensures ParseAge("abc") == None
    ensures ParseAge("") == None
    ensures ParseAge("12.5") == None
    ensures ParseAge("42") == Some(42)
  {
    assert !IsIntLiteral("abc") by { assert !IsDigit('a') && !IsSign('a'); assert "abc"[1..][0] == 'b'; }
    assert !IsIntLiteral("12.5") by { assert "12.5"[2] == '.'; assert "12.5"[1..][1] == '.'; }
    ParseAgeString(42);
    assert NatString(42) == "42";
  }

  /** Signed age cells: a plus sign is dropped, and a minus sign negates, leading zeros or not. */
  lemma {:induction false} SignedAgeCells()
    ensures ParseAge("+42") == Some(42)
    ensures ParseAge("-042") == Some(-42)
    ensures ParseAge("-0") == Some(0)
  {
    PlusSignAge();
    MinusSignAge();
    MinusZeroAge();
  }

  lemma {:induction false} PlusSignAge()
    ensures ParseAge("+42") == Some(42)
  {
    ParseIntString(42);
    assert NatString(42) == "42";
    ParseIntSigned("42");
    assert "+" + "42" == "+42";
  }

  lemma {:induction false} MinusSignAge()
    ensures ParseAge("-042") == Some(-42)
  {
    ParseIntString(42);
    assert NatString(42) == "42";
    ParseIntLeadingZero("42");
    assert "0" + "42" == "042";
    ParseIntSigned("042");
    assert "-" + "042" == "-042";
  }

  lemma {:induction false} MinusZeroAge()
    ensures ParseAge("-0") == Some(0)
  {
    ParseIntString(0);
    assert NatString(0) == "0";
    ParseIntSigned("0");
    assert "-" + "0" == "-0";
  }


  lemma {:induction false} ThreeRuns(a: string, d: char, b: string, e: char, c: string)
    requires NoDelimiter(a) && NoDelimiter(b) && NoDelimiter(c) && IsDelimiter(d) && IsDelimiter(e)
    ensures Runs(a + [d] + (b + [e] + c)) == [a, b, c]
  {
    RunsCons(a, d, b + [e] + c);
    RunsCons(b, e, c);
    RunsSingle(c);
  }

  lemma {:induction false} MixedDelimiterRuns()
    ensures Runs("8; 9 / 10") == ["8", " 9 ", " 10"]
  {
    assert NoDelimiter("8") && NoDelimiter(" 9 ") && NoDelimiter(" 10");
    ThreeRuns("8", ';', " 9 ", '/', " 10");
    assert "8" + [';'] + (" 9 " + ['/'] + " 10") == "8; 9 / 10";
  }

  lemma {:induction false} MixedDelimiterStrips()
    ensures Strip("8") == "8" && Strip(" 9 ") == "9" && Strip(" 10") == "10"
  {
    StripStripped("8");
    StripUnique(" 9 ", 1, "9");
    StripUnique(" 10", 1, "10");
  }

  lemma {:induction false} KeepOne(c: string)
    requires Strip(c) != []
    ensures KeepNonBlank([c]) == [Strip(c)]
  {
    KeepNonBlankCons(c, []);
    assert [c] == [c] + [];
  }

  lemma {:induction false} KeepTwo(b: string, c: string)
    requires Strip(b) != [] && Strip(c) != []
    ensures KeepNonBlank([b, c]) == [Strip(b), Strip(c)]
  {
    KeepOne(c);
    KeepNonBlankCons(b, [c]);
    assert [b, c] == [b] + [c];
  }

  lemma {:induction false} KeepThree(a: string, b: string, c: string)
    requires Strip(a) != [] && Strip(b) != [] && Strip(c) != []
    ensures KeepNonBlank([a, b, c]) == [Strip(a), Strip(b), Strip(c)]
  {
    KeepTwo(b, c);
    KeepNonBlankCons(a, [b, c]);
    assert [a, b, c] == [a] + [b, c];
  }

  /** `"8; 9 / 10"` holds three grades. */
  lemma {:induction false} MixedDelimiterCell()
    ensures SplitMulti(Some("8; 9 / 10")) == ["8", "9", "10"]
  {
    SplitMultiIsStrippedRuns("8; 9 / 10");
    MixedDelimiterRuns();
    MixedDelimiterStrips();
    KeepThree("8", " 9 ", " 10");
  }
}
