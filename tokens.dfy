/** Token-level classifiers of the award-identifier extractor (award_id.py):
    punctuation removal, the year test, the acronym test, the inclusion test,
    the tokenizer and the token filters. */
module Tokens {
  import opened Text

  /** The English-dictionary capability the classifiers consult: the word list
      and the two lemmatiser passes (singular noun form, then verb base form). */
  datatype Lexicon = Lexicon(words: set<string>, nounLemma: string -> string, verbLemma: string -> string)

  /** `removePunctuation(word, preserve)`: every punctuation character not in
      `preserve` deleted. */
  function RemovePunctuation(word: string, preserve: set<char>): (r: string)
    ensures |r| <= |word|
    ensures forall i :: 0 <= i < |r| ==> r[i] in preserve || r[i] !in Punctuation
  {
    RemoveChars(word, Punctuation - preserve)
  }

  /** What `removePunctuation` keeps: the word's characters in order, each
      character outside the deleted punctuation exactly as often as in the
      word, and no deleted punctuation. */
  lemma RemovePunctuationKeeps(word: string, preserve: set<char>)
    ensures var r := RemovePunctuation(word, preserve);
            && IsSubsequence(r, word)
            && (forall c :: c !in Punctuation - preserve ==> multiset(r)[c] == multiset(word)[c])
            && (forall c :: c in Punctuation - preserve ==> multiset(r)[c] == 0)
  {
    RemoveCharsCounts(word, Punctuation - preserve);
  }

  // ---------------------------------------------------------------------------
  // isYear
  // ---------------------------------------------------------------------------

  /** The value of a decimal digit. */
  function DigitValue(c: char): (d: int)
    requires IsDigit(c)
    ensures 0 <= d <= 9
  {
    c as int - '0' as int
  }

  /** The value of a string of decimal digits, as `int(s)` reads it. */
  function DigitsValue(s: string): (v: nat)
    requires forall i :: 0 <= i < |s| ==> IsDigit(s[i])
  {
    if s == [] then 0 else 10 * DigitsValue(s[..|s| - 1]) + DigitValue(s[|s| - 1])
  }

  /** `isYear(word, current_year)`: the whole word matches `^(19|20)[0-9]{2}$`
      (where `$` also matches just before a final newline) and the year is not
      later than `currentYear`. */
  predicate IsYear(word: string, currentYear: int)
  {
    && (|word| == 4 || (|word| == 5 && word[4] == '\n'))
    && (word[..2] == "19" || word[..2] == "20")
    && IsDigit(word[2]) && IsDigit(word[3])
    && DigitsValue(word[..4]) <= currentYear
  }

  /** A four-digit string's value, digit by digit. */
  lemma FourDigits(w: string)
    requires |w| == 4 && PyIsNumeric(w)
    ensures DigitsValue(w) == 1000 * DigitValue(w[0]) + 100 * DigitValue(w[1])
                              + 10 * DigitValue(w[2]) + DigitValue(w[3])
  {
    var w3, w2, w1 := w[..3], w[..2], w[..1];
    assert w3[..2] == w2 && w2[..1] == w1 && w1[..0] == [];
    assert DigitsValue(w1) == DigitValue(w[0]);
    assert DigitsValue(w2) == 10 * DigitValue(w[0]) + DigitValue(w[1]);
    assert DigitsValue(w3) == 100 * DigitValue(w[0]) + 10 * DigitValue(w[1]) + DigitValue(w[2]);
  }

  /** A year is a number from 1900 to 2099, not after the current year,
      written as four digits alone or followed by one newline. */
  lemma YearRange(word: string, currentYear: int)
    requires IsYear(word, currentYear)
    ensures PyIsNumeric(word[..4])
    ensures 1900 <= DigitsValue(word[..4]) <= 2099 && DigitsValue(word[..4]) <= currentYear
    ensures word == word[..4] || word == word[..4] + "\n"
  {
    var w := word[..4];
    assert w[0] == word[..2][0] && w[1] == word[..2][1];
    FourDigits(w);
    if |word| == 5 {
      assert word == word[..4] + [word[4]];
    }
  }

  /** Conversely every such number is a year, with or without a final newline. */
  lemma YearRecognised(w: string, currentYear: int)
    requires |w| == 4 && PyIsNumeric(w)
    requires 1900 <= DigitsValue(w) <= 2099 && DigitsValue(w) <= currentYear
    ensures IsYear(w, currentYear) && IsYear(w + "\n", currentYear)
  {
    FourDigits(w);
    assert w[..2] == [w[0], w[1]];
    if DigitValue(w[0]) == 1 {
      assert w[0] == '1' && w[1] == '9';
    } else {
      assert w[0] == '2' && w[1] == '0';
    }
    assert w[..4] == w;
    assert (w + "\n")[..4] == w;
    assert DigitsValue((w + "\n")[..4]) == DigitsValue(w);
    assert (w + "\n")[..2] == w[..2];
  }

  // ---------------------------------------------------------------------------
  // isAcronym
  // ---------------------------------------------------------------------------

  /** `isAcronym(word, excludedAcronyms)`: once punctuation is removed the word
      is upper-case letters only, and one of its `-`/`/`-separated parts is a
      listed acronym. */
  predicate IsAcronym(word: string, excluded: set<string>)
  {
    var w := RemovePunctuation(word, {'-', '/'});
    var bare := RemovePunctuation(w, {});
    PyIsUpper(bare) && PyIsAlpha(bare) &&
    exists k :: 0 <= k < |SplitOn(w, {'-', '/'})| && SplitOn(w, {'-', '/'})[k] in excluded
  }

  /** An acronym holds upper-case letters and punctuation only, and at least
      one upper-case letter. */
  lemma AcronymShape(word: string, excluded: set<string>)
    requires IsAcronym(word, excluded)
    ensures HasUpper(word) && !HasLower(word) && !HasDigit(word)
  {
    var w := RemovePunctuation(word, {'-', '/'});
    var bare := RemovePunctuation(w, {});
    SubsequenceTransitive(bare, w, word);
    var j :| 0 <= j < |bare| && IsUpper(bare[j]);
    SubsequenceMembers(bare, word, j);
    forall i | 0 <= i < |word| ensures !IsLower(word[i]) && !IsDigit(word[i]) {
      KeptCharacter(word, i, bare);
    }
  }

  /** A letter or digit of `word` survives in the fully de-punctuated word. */
  lemma KeptCharacter(word: string, i: int, bare: string)
    requires 0 <= i < |word|
    requires bare == RemovePunctuation(RemovePunctuation(word, {'-', '/'}), {})
    ensures IsAlnum(word[i]) ==> exists j :: 0 <= j < |bare| && bare[j] == word[i]
  {
    if IsAlnum(word[i]) {
      var w := RemovePunctuation(word, {'-', '/'});
      CharSurvives(word, i, Punctuation - {'-', '/'});
      var k :| 0 <= k < |w| && w[k] == word[i];
      CharSurvives(w, k, Punctuation - {});
    }
  }

  /** A character outside the deleted set survives deletion. */
  lemma {:induction false} CharSurvives(s: string, i: int, drop: set<char>)
    requires 0 <= i < |s| && s[i] !in drop
    ensures exists j :: 0 <= j < |RemoveChars(s, drop)| && RemoveChars(s, drop)[j] == s[i]
  {
    if i == 0 {
      assert RemoveChars(s, drop)[0] == s[0];
    } else {
      CharSurvives(s[1..], i - 1, drop);
      var t := RemoveChars(s[1..], drop);
      var j :| 0 <= j < |t| && t[j] == s[1..][i - 1];
      if s[0] !in drop {
        assert RemoveChars(s, drop) == [s[0]] + t;
        assert RemoveChars(s, drop)[j + 1] == s[i];
      } else {
        assert RemoveChars(s, drop) == t;
      }
    }
  }

  /** A listed acronym written in capitals, alone or hyphenated after another
      block of capitals, is recognised. */
  lemma ListedAcronymRecognised(a: string, b: string, excluded: set<string>)
    requires PyIsAlpha(a) && PyIsUpper(a)
    requires (b == [] && a in excluded) || (PyIsAlpha(b) && PyIsUpper(b) && b in excluded)
    ensures IsAcronym(if b == [] then a else a + "-" + b, excluded)
  {
    LettersSurvive(a, {'-', '/'});
    LettersSurvive(a, {});
    SplitOnNone(a, {'-', '/'});
    if b != [] {
      HyphenatedKept(a, b);
      var w := a + "-" + b;
      HyphenatedBare(a, b);
      CapitalsConcat(a, b);
      assert RemovePunctuation(RemovePunctuation(w, {'-', '/'}), {}) == a + b;
      SplitOnConcat(a, '-', b, {'-', '/'});
      SplitOnNone(b, {'-', '/'});
      assert SplitOn(w, {'-', '/'}) == [a, b];
      assert SplitOn(w, {'-', '/'})[1] in excluded;
    } else {
      assert SplitOn(RemovePunctuation(a, {'-', '/'}), {'-', '/'})[0] in excluded;
    }
  }

  /** Letters are not punctuation: removing punctuation leaves them alone. */
  lemma LettersSurvive(a: string, preserve: set<char>)
    requires forall i :: 0 <= i < |a| ==> IsLetter(a[i])
    ensures RemovePunctuation(a, preserve) == a
  {
    assert forall i :: 0 <= i < |a| ==> a[i] !in Punctuation;
    RemoveCharsAbsent(a, Punctuation - preserve);
  }

  lemma HyphenatedKept(a: string, b: string)
    requires PyIsAlpha(a) && PyIsAlpha(b)
    ensures RemovePunctuation(a + "-" + b, {'-', '/'}) == a + "-" + b
  {
    LettersSurvive(a, {'-', '/'});
    LettersSurvive(b, {'-', '/'});
    RemoveCharsConcat(a + "-", b, Punctuation - {'-', '/'});
    RemoveCharsConcat(a, "-", Punctuation - {'-', '/'});
    RemoveCharsAbsent("-", Punctuation - {'-', '/'});
  }

  lemma HyphenatedBare(a: string, b: string)
    requires PyIsAlpha(a) && PyIsAlpha(b)
    ensures RemovePunctuation(a + "-" + b, {}) == a + b
  {
    LettersSurvive(a, {});
    LettersSurvive(b, {});
    RemoveCharsConcat(a + "-", b, Punctuation - {});
    RemoveCharsConcat(a, "-", Punctuation - {});
    assert '-' in Punctuation - {};
    assert RemoveChars("-", Punctuation - {}) == RemoveChars([], Punctuation - {}) == [];
  }

  lemma CapitalsConcat(a: string, b: string)
    requires PyIsAlpha(a) && PyIsUpper(a) && PyIsAlpha(b) && PyIsUpper(b)
    ensures PyIsAlpha(a + b) && PyIsUpper(a + b)
  {
    var j :| 0 <= j < |a| && IsUpper(a[j]);
    assert IsUpper((a + b)[j]);
    forall i | 0 <= i < |a + b| ensures !IsLower((a + b)[i]) && IsLetter((a + b)[i]) {
      if i >= |a| { assert (a + b)[i] == b[i - |a|]; }
    }
  }

  // ---------------------------------------------------------------------------
  // includeWord
  // ---------------------------------------------------------------------------

  /** `getBasicForm`: de-punctuated, lower-cased, then the two lemmatiser passes. */
  function BasicForm(word: string, lex: Lexicon): string
  {
    lex.verbLemma(lex.nounLemma(ToLower(RemovePunctuation(word, {}))))
  }

  /** `includeWord`: after punctuation removal the word is a short (under three
      characters) block of capitals, or holds a digit, or its basic form is not
      an English dictionary word. */
  predicate IncludeWord(word: string, lex: Lexicon)
  {
    var w := RemovePunctuation(word, {});
    (|w| < 3 && PyIsUpper(w) && PyIsAlpha(w)) || HasDigit(w) || BasicForm(w, lex) !in lex.words
  }

  /** A word keeps its digits through punctuation removal. */
  lemma DigitsKept(word: string)
    ensures HasDigit(RemovePunctuation(word, {})) <==> HasDigit(word)
  {
    var w := RemovePunctuation(word, {});
    if HasDigit(word) {
      var i :| 0 <= i < |word| && IsDigit(word[i]);
      CharSurvives(word, i, Punctuation - {});
      var j :| 0 <= j < |w| && w[j] == word[i];
      assert IsDigit(w[j]);
    }
    if HasDigit(w) {
      var j :| 0 <= j < |w| && IsDigit(w[j]);
      SubsequenceMembers(w, word, j);
      var i :| 0 <= i < |word| && word[i] == w[j];
      assert IsDigit(word[i]);
    }
  }

  /** A token is left out exactly when, after punctuation removal, it is not
      a short block of capitals, holds no digit, and its basic form is a
      dictionary word. */
  lemma IncludeWordCases(word: string, lex: Lexicon)
    ensures HasDigit(word) ==> IncludeWord(word, lex)
    ensures var w := RemovePunctuation(word, {});
            !IncludeWord(word, lex) <==>
              && !(|w| < 3 && PyIsUpper(w) && PyIsAlpha(w))
              && !HasDigit(word)
              && BasicForm(w, lex) in lex.words
  {
    DigitsKept(word);
  }

  // ---------------------------------------------------------------------------
  // The tokenizer
  // ---------------------------------------------------------------------------

  /** The tokenizer's character class `[-/&.,;:\w]`. */
  predicate IsTokenChar(c: char) { c in {'-', '/', '&', '.', ',', ';', ':'} || IsWordChar(c) }

  predicate AllTokenChars(s: string) { forall i :: 0 <= i < |s| ==> IsTokenChar(s[i]) }

  /** Length of the leading run of token characters. */
  function RunLength(s: string): (n: nat)
    ensures n <= |s|
    ensures AllTokenChars(s[..n])
    ensures n == |s| || !IsTokenChar(s[n])
  {
    if s == [] || !IsTokenChar(s[0]) then 0
    else
      var m := RunLength(s[1..]);
      assert s[..m + 1] == [s[0]] + s[1..][..m];
      m + 1
  }

  /** `RegexpTokenizer('[-/&.,;:\w]+').tokenize(s)`: the maximal runs of token
      characters, in order. */
  function Tokenize(s: string): (tokens: seq<string>)
    ensures forall k :: 0 <= k < |tokens| ==> |tokens[k]| > 0 && AllTokenChars(tokens[k])
    decreases |s|
  {
    if s == [] then []
    else if !IsTokenChar(s[0]) then Tokenize(s[1..])
    else
      var n := RunLength(s);
      [s[..n]] + Tokenize(s[n..])
  }

  /** Concatenating all tokens gives the text with its other characters deleted. */
  function Concat(tokens: seq<string>): string
  {
    if tokens == [] then [] else tokens[0] + Concat(tokens[1..])
  }

  predicate IsSeparator(c: char) { !IsTokenChar(c) }

  /** No token character is lost and none is invented. */
  lemma {:induction false} TokenizeKeepsTokenChars(s: string)
    ensures Concat(Tokenize(s)) == RemoveChars(s, set c | c in s && IsSeparator(c))
    decreases |s|
  {
    var drop := set c | c in s && IsSeparator(c);
    if s != [] {
      var dropTail := set c | c in s[1..] && IsSeparator(c);
      if !IsTokenChar(s[0]) {
        TokenizeKeepsTokenChars(s[1..]);
        RemoveCharsSameOn(s[1..], drop, dropTail);
      } else {
        var n := RunLength(s);
        TokenizeKeepsTokenChars(s[n..]);
        var dropRest := set c | c in s[n..] && IsSeparator(c);
        assert s == s[..n] + s[n..];
        RemoveCharsConcat(s[..n], s[n..], drop);
        RemoveCharsAbsent(s[..n], drop);
        RemoveCharsSameOn(s[n..], drop, dropRest);
      }
    }
  }

  /** Deleting by two sets that agree on the characters of `s` gives the same result. */
  lemma {:induction false} RemoveCharsSameOn(s: string, d1: set<char>, d2: set<char>)
    requires forall i :: 0 <= i < |s| ==> (s[i] in d1 <==> s[i] in d2)
    ensures RemoveChars(s, d1) == RemoveChars(s, d2)
  {
    if s != [] {
      RemoveCharsSameOn(s[1..], d1, d2);
    }
  }

  /** A separator splits the text into two independently tokenized halves. */
  lemma {:induction false} TokenizeSplitsAtSeparator(x: string, c: char, y: string)
    requires IsSeparator(c)
    ensures Tokenize(x + [c] + y) == Tokenize(x) + Tokenize(y)
    decreases |x|
  {
    if x == [] {
      assert x + [c] + y == [c] + y;
      assert ([c] + y)[1..] == y;
    } else if !IsTokenChar(x[0]) {
      assert (x + [c] + y)[1..] == x[1..] + [c] + y;
      TokenizeSplitsAtSeparator(x[1..], c, y);
    } else {
      var s := x + [c] + y;
      var n := RunLength(x);
      RunLengthStopsAtSeparator(x, c, y);
      assert s[..n] == x[..n];
      assert s[n..] == x[n..] + [c] + y;
      TokenizeSplitsAtSeparator(x[n..], c, y);
    }
  }

  lemma {:induction false} RunLengthStopsAtSeparator(x: string, c: char, y: string)
    requires IsSeparator(c)
    ensures RunLength(x + [c] + y) == RunLength(x)
  {
    if x == [] {
      assert (x + [c] + y)[0] == c;
    } else if IsTokenChar(x[0]) {
      assert (x + [c] + y)[1..] == x[1..] + [c] + y;
      RunLengthStopsAtSeparator(x[1..], c, y);
    }
  }

  /** A non-empty run of token characters is one token: runs are maximal. */
  lemma {:induction false} TokenizeRun(t: string)
    requires |t| > 0 && AllTokenChars(t)
    ensures Tokenize(t) == [t]
  {
    RunLengthWhole(t);
    assert t[..|t|] == t;
  }

  lemma {:induction false} RunLengthWhole(t: string)
    requires AllTokenChars(t)
    ensures RunLength(t) == |t|
  {
    if t != [] {
      RunLengthWhole(t[1..]);
    }
  }

  // ---------------------------------------------------------------------------
  // The token filters
  // ---------------------------------------------------------------------------

  /** The conjunction of the successive list filters applied to the tokens of
      the letter-stripped statement: not `U.S.`; longer than one character or
      numeric; not an excluded acronym; and passing the inclusion test. */
  predicate Flaggable(w: string, acronyms: set<string>, lex: Lexicon)
  {
    && w != "U.S."
    && ((|w| > 2 && w[|w| - 1] in Stops) || |w| > 1 || PyIsNumeric(w))
    && !IsAcronym(w, acronyms)
    && IncludeWord(w, lex)
  }

  /** The flagged tokens, in their original order. */
  function FilterTokens(tokens: seq<string>, acronyms: set<string>, lex: Lexicon): (r: seq<string>)
    ensures |r| <= |tokens|
    ensures forall w :: w in r <==> w in tokens && Flaggable(w, acronyms, lex)
  {
    if tokens == [] then []
    else
      var rest := FilterTokens(tokens[1..], acronyms, lex);
      assert forall w :: w in tokens <==> w == tokens[0] || w in tokens[1..];
      if Flaggable(tokens[0], acronyms, lex) then [tokens[0]] + rest else rest
  }

  /** A single character survives the filters only if it is a digit. */
  lemma FlaggedSingleCharIsDigit(w: string, acronyms: set<string>, lex: Lexicon)
    requires Flaggable(w, acronyms, lex) && |w| <= 1
    ensures |w| == 1 && IsDigit(w[0])
  {
  }
}
