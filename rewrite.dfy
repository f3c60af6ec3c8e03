/** The literal text rewrites the extractor applies to a statement before it is
    tokenized (award_id.py): HTML entity decoding, hyphen and dash
    normalisation, whitespace collapsing, spacing after punctuation, and the
    `&`, `/` and `#` rewrites. */
module Rewrites {
  import opened Text

  // ---------------------------------------------------------------------------
  // htmlTOunicode
  // ---------------------------------------------------------------------------

  /** The entity table of `htmlTOunicode`, in the dictionary's iteration order.
      The literal lists `&apos;` twice with the same value; a dictionary keeps
      the first position, so the entry appears once. */
  const HtmlTable: seq<(string, string)> :=
    [("&mdash;", "-"), ("&num;", "#"), ("&ldquo;", "'"), ("&rdquo;", "'"), ("&apos;", "'"),
     ("&amp;", "&"), ("&equals;", "="), ("&lsqb;", "["), ("&rsqb;", "]"), ("&quest;", "?"),
     ("&sect;", "\U{A7}"), ("&Ovalhollow;", ""), ("&Oslash;", "0"), ("&Prime;", "'"),
     ("&plus;", "+"), ("&oacute;", "\U{F3}"), ("&times;", "x"), ("&copy;", "(c)"), ("&mgr;", "mu")]

  /** Every key is an entity starting with `&`, and no value is longer than
      its key. */
  predicate EntityTable(t: seq<(string, string)>)
  {
    forall k :: 0 <= k < |t| ==> |t[k].0| > 0 && t[k].0[0] == '&' && |t[k].1| <= |t[k].0|
  }

  lemma HtmlTableIsEntityTable()
    ensures EntityTable(HtmlTable)
  {
  }

  /** The table's replacements applied one after the other, each over the
      whole text. */
  function ApplyTable(t: seq<(string, string)>, text: string): string
    requires EntityTable(t)
  {
    if t == [] then text
    else ReplaceAll(ApplyTable(t[..|t| - 1], text), t[|t| - 1].0, t[|t| - 1].1)
  }

  /** `htmlTOunicode(text)`: the loop over the table, rebinding the text. */
  method HtmlToUnicode(text: string) returns (r: string)
    ensures r == ApplyTable(HtmlTable, text)
    ensures |r| <= |text|
    ensures (forall k :: 0 <= k < |text| ==> text[k] != '&') ==> r == text
  {
    HtmlTableIsEntityTable();
    r := text;
    for k := 0 to |HtmlTable|
      invariant r == ApplyTable(HtmlTable[..k], text)
    {
      assert HtmlTable[..k + 1][..k] == HtmlTable[..k];
      r := ReplaceAll(r, HtmlTable[k].0, HtmlTable[k].1);
    }
    assert HtmlTable[..|HtmlTable|] == HtmlTable;
    TableNeverGrows(HtmlTable, text);
    if forall k :: 0 <= k < |text| ==> text[k] != '&' {
      TableNeedsAmpersand(HtmlTable, text);
    }
  }

  /** Decoding never lengthens the text. */
  lemma {:induction false} TableNeverGrows(t: seq<(string, string)>, text: string)
    requires EntityTable(t)
    ensures |ApplyTable(t, text)| <= |text|
  {
    if t != [] {
      TableNeverGrows(t[..|t| - 1], text);
      ReplaceShrinks(ApplyTable(t[..|t| - 1], text), t[|t| - 1].0, t[|t| - 1].1);
    }
  }

  /** Text without `&` holds no entity and comes back unchanged. */
  lemma {:induction false} TableNeedsAmpersand(t: seq<(string, string)>, text: string)
    requires EntityTable(t)
    requires forall k :: 0 <= k < |text| ==> text[k] != '&'
    ensures ApplyTable(t, text) == text
  {
    if t != [] {
      TableNeedsAmpersand(t[..|t| - 1], text);
      var key := t[|t| - 1].0;
      assert !IsSubstring(key, text);
      ReplaceAbsent(text, key, t[|t| - 1].1);
    }
  }

  // ---------------------------------------------------------------------------
  // Hyphens and dashes
  // ---------------------------------------------------------------------------

  function Hyphens(n: nat): (h: string)
    ensures |h| == n && forall k :: 0 <= k < n ==> h[k] == '-'
  {
    if n == 0 then [] else "-" + Hyphens(n - 1)
  }

  /** `s.replace('--', '-')` is a single left-to-right pass, so a run of `n`
      hyphens becomes a run of `ceil(n/2)`, not a single hyphen. */
  lemma {:induction false} HyphenRunHalved(n: nat)
    ensures ReplaceAll(Hyphens(n), "--", "-") == Hyphens((n + 1) / 2)
  {
    if n >= 2 {
      var h := Hyphens(n);
      assert h[..2] == "--";
      assert h[2..] == Hyphens(n - 2);
      HyphenRunHalved(n - 2);
    }
  }

  /** Three hyphens become two. */
  lemma ThreeHyphensBecomeTwo(s: string)
    requires s == "---"
    ensures ReplaceAll(s, "--", "-") == "--"
  {
    assert s == Hyphens(3);
    HyphenRunHalved(3);
    assert Hyphens(2) == "--";
  }

  /** `for c in ['–', '—']: s = s.replace(c, '-')`. */
  function ReplaceDashes(s: string): string
  {
    ReplaceAll(ReplaceAll(s, "\U{2013}", "-"), "\U{2014}", "-")
  }

  /** The two passes replace every en or em dash by a hyphen, character by
      character, and change nothing else. */
  lemma DashesBecomeHyphens(s: string)
    ensures ReplaceDashes(s) == ReplaceChars(s, {'\U{2013}', '\U{2014}'}, '-')
  {
    var t := ReplaceAll(s, "\U{2013}", "-");
    SingleCharReplace(s, '\U{2013}', '-');
    SingleCharReplace(t, '\U{2014}', '-');
  }

  /** Replacing a one-character pattern is a character-wise substitution. */
  lemma {:induction false} SingleCharReplace(s: string, c: char, d: char)
    ensures ReplaceAll(s, [c], [d]) == ReplaceChars(s, {c}, d)
  {
    if s != [] {
      SingleCharReplace(s[1..], c, d);
      assert s[..1] == [s[0]];
    }
  }

  // ---------------------------------------------------------------------------
  // re.sub('\s+', ' ', s)
  // ---------------------------------------------------------------------------

  /** The characters of `\s`, as a set. */
  const Whitespace: set<char> :=
    {' ', '\t', '\n', '\r', '\U{B}', '\U{C}', '\U{1C}', '\U{1D}', '\U{1E}', '\U{1F}'}

  /** Every maximal run of whitespace replaced by one space. */
  function CollapseWhitespace(s: string): (r: string)
    ensures |r| <= |s|
    ensures forall k :: 0 <= k < |r| && IsSpace(r[k]) ==> r[k] == ' '
    ensures forall k :: 0 <= k < |r| - 1 ==> !(r[k] == ' ' && r[k + 1] == ' ')
    ensures s != [] && !IsSpace(s[0]) ==> r != [] && r[0] == s[0]
    ensures RemoveChars(r, Whitespace) == RemoveChars(s, Whitespace)
  {
    CollapseShape(s);
    Collapse(s)
  }

  /** The substitution itself, scanning left to right. */
  function Collapse(s: string): string
    decreases |s|
  {
    if s == [] then []
    else if IsSpace(s[0]) then [' '] + Collapse(StripLeft(s[1..]))
    else [s[0]] + Collapse(s[1..])
  }

  /** The collapsed text: single spaces, none adjacent, content kept. */
  lemma {:induction false} CollapseShape(s: string)
    ensures var r := Collapse(s);
            && |r| <= |s|
            && (forall k :: 0 <= k < |r| && IsSpace(r[k]) ==> r[k] == ' ')
            && (forall k :: 0 <= k < |r| - 1 ==> !(r[k] == ' ' && r[k + 1] == ' '))
            && (s != [] && !IsSpace(s[0]) ==> r != [] && r[0] == s[0])
            && RemoveChars(r, Whitespace) == RemoveChars(s, Whitespace)
    decreases |s|
  {
    if s != [] {
      if IsSpace(s[0]) {
        var t := StripLeft(s[1..]);
        CollapseShape(t);
      } else {
        CollapseShape(s[1..]);
      }
    }
    CollapseKeepsContent(s);
  }

  /** `\s` and the set `Whitespace` hold the same characters. */
  lemma WhitespaceIsSpace(c: char)
    ensures c in Whitespace <==> IsSpace(c)
  {
  }

  /** Collapsing deletes and inserts whitespace only. */
  lemma {:induction false} CollapseKeepsContent(s: string)
    ensures RemoveChars(Collapse(s), Whitespace) == RemoveChars(s, Whitespace)
    decreases |s|
  {
    if s != [] {
      WhitespaceIsSpace(s[0]);
      if IsSpace(s[0]) {
        var t := StripLeft(s[1..]);
        CollapseKeepsContent(t);
        StripLeftKeepsContent(s[1..]);
        assert ' ' in Whitespace;
        assert ([' '] + Collapse(t))[1..] == Collapse(t);
      } else {
        CollapseKeepsContent(s[1..]);
        assert ([s[0]] + Collapse(s[1..]))[1..] == Collapse(s[1..]);
      }
    }
  }

  /** Leading whitespace carries no content. */
  lemma {:induction false} StripLeftKeepsContent(s: string)
    ensures RemoveChars(StripLeft(s), Whitespace) == RemoveChars(s, Whitespace)
  {
    if s != [] && IsSpace(s[0]) {
      WhitespaceIsSpace(s[0]);
      StripLeftKeepsContent(s[1..]);
    }
  }

  /** Leading whitespace in front of text that has a non-whitespace
      character is stripped without reaching what follows. */
  lemma {:induction false} StripLeftConcat(x: string, y: string)
    requires x != [] && !IsSpace(x[|x| - 1])
    ensures StripLeft(x + y) == StripLeft(x) + y
  {
    if IsSpace(x[0]) {
      assert (x + y)[1..] == x[1..] + y;
      StripLeftConcat(x[1..], y);
    }
  }

  /** A whitespace run in front of text that starts with another character
      is stripped entirely. */
  lemma {:induction false} StripLeftSpaces(w: string, b: string)
    requires forall k :: 0 <= k < |w| ==> IsSpace(w[k])
    requires b == [] || !IsSpace(b[0])
    ensures StripLeft(w + b) == b
  {
    if w != [] {
      assert (w + b)[1..] == w[1..] + b;
      StripLeftSpaces(w[1..], b);
    } else {
      assert w + b == b;
    }
  }

  /** No whitespace run spans the end of text that ends with another
      character, so its two sides collapse separately. */
  lemma {:induction false} CollapseConcat(x: string, y: string)
    requires x == [] || !IsSpace(x[|x| - 1])
    ensures Collapse(x + y) == Collapse(x) + Collapse(y)
    decreases |x|
  {
    if x == [] {
      assert x + y == y;
    } else {
      var xy := x + y;
      assert xy[0] == x[0] && xy[1..] == x[1..] + y;
      if IsSpace(x[0]) {
        var u := StripLeft(x[1..]);
        StripLeftConcat(x[1..], y);
        CollapseConcat(u, y);
        assert Collapse(xy) == [' '] + (Collapse(u) + Collapse(y));
        AppendAssoc([' '], Collapse(u), Collapse(y));
      } else {
        CollapseConcat(x[1..], y);
        assert Collapse(xy) == [x[0]] + (Collapse(x[1..]) + Collapse(y));
        AppendAssoc([x[0]], Collapse(x[1..]), Collapse(y));
      }
    }
  }

  /** A whitespace run in front of other text becomes one space. */
  lemma CollapseLeadingRun(w: string, b: string)
    requires w != [] && forall k :: 0 <= k < |w| ==> IsSpace(w[k])
    requires b == [] || !IsSpace(b[0])
    ensures Collapse(w + b) == [' '] + Collapse(b)
  {
    var wb := w + b;
    assert wb[0] == w[0] && wb[1..] == w[1..] + b;
    assert forall k :: 0 <= k < |w[1..]| ==> IsSpace(w[1..][k]) by {
      forall k | 0 <= k < |w[1..]| ensures IsSpace(w[1..][k]) {
        assert w[1..][k] == w[k + 1];
      }
    }
    StripLeftSpaces(w[1..], b);
  }

  /** A whitespace run between two pieces of other text becomes exactly one
      space, and the pieces collapse on their own. */
  lemma CollapseRun(a: string, w: string, b: string)
    requires a == [] || !IsSpace(a[|a| - 1])
    requires w != [] && forall k :: 0 <= k < |w| ==> IsSpace(w[k])
    requires b == [] || !IsSpace(b[0])
    ensures Collapse(a + (w + b)) == Collapse(a) + (" " + Collapse(b))
  {
    CollapseConcat(a, w + b);
    CollapseLeadingRun(w, b);
  }

  /** Text already in collapsed form is a fixed point. */
  lemma {:induction false} CollapsedIsFixed(r: string)
    requires forall k :: 0 <= k < |r| && IsSpace(r[k]) ==> r[k] == ' '
    requires forall k :: 0 <= k < |r| - 1 ==> !(r[k] == ' ' && r[k + 1] == ' ')
    ensures Collapse(r) == r
  {
    if r != [] {
      CollapsedIsFixed(r[1..]);
      if IsSpace(r[0]) {
        assert r[1..] == [] || !IsSpace(r[1]);
      }
    }
  }

  /** Collapsing twice is collapsing once. */
  lemma CollapseIdempotent(s: string)
    ensures CollapseWhitespace(CollapseWhitespace(s)) == CollapseWhitespace(s)
  {
    CollapsedIsFixed(CollapseWhitespace(s));
  }

  // ---------------------------------------------------------------------------
  // Spacing after punctuation: re.sub('(L)(R)', lambda x: ' '.join(x.groups()), s)
  // ---------------------------------------------------------------------------

  /** No character of class `left` is directly followed by one of class `right`. */
  predicate NoTightPair(s: string, left: char -> bool, right: char -> bool)
  {
    forall k :: 0 <= k < |s| - 1 ==> !(left(s[k]) && right(s[k + 1]))
  }

  /** A space inserted into every tight pair, scanning left to right. */
  function InsertSpace(s: string, left: char -> bool, right: char -> bool): (r: string)
    ensures |r| >= |s|
    ensures s != [] ==> r != [] && r[0] == s[0]
    ensures RemoveChars(r, {' '}) == RemoveChars(s, {' '})
  {
    InsertSpaceShape(s, left, right);
    Spaced(s, left, right)
  }

  /** The substitution itself; the regular expression consumes both
      characters of a pair. */
  function Spaced(s: string, left: char -> bool, right: char -> bool): string
    decreases |s|
  {
    if |s| < 2 then s
    else if left(s[0]) && right(s[1]) then [s[0], ' ', s[1]] + Spaced(s[2..], left, right)
    else [s[0]] + Spaced(s[1..], left, right)
  }

  /** The pass only adds spaces and keeps the first character. */
  lemma {:induction false} InsertSpaceShape(s: string, left: char -> bool, right: char -> bool)
    ensures var r := Spaced(s, left, right);
            && |r| >= |s|
            && (s != [] ==> r != [] && r[0] == s[0])
            && RemoveChars(r, {' '}) == RemoveChars(s, {' '})
    decreases |s|
  {
    if |s| >= 2 {
      if left(s[0]) && right(s[1]) {
        var rest := Spaced(s[2..], left, right);
        InsertSpaceShape(s[2..], left, right);
        RemoveCharsConcat([s[0], ' ', s[1]], rest, {' '});
        RemoveCharsConcat([s[0], s[1]], s[2..], {' '});
        assert s == [s[0], s[1]] + s[2..];
        assert [s[0], ' ', s[1]][1..] == [' ', s[1]];
        assert [s[0], s[1]][1..] == [s[1]];
      } else {
        InsertSpaceShape(s[1..], left, right);
        RemoveCharsConcat([s[0]], Spaced(s[1..], left, right), {' '});
        RemoveCharsConcat([s[0]], s[1..], {' '});
        assert s == [s[0]] + s[1..];
      }
    }
  }

  /** `s` with a space after each character whose gap is marked. */
  function Spread(s: string, gaps: seq<bool>): string
    requires |gaps| == |s|
  {
    if s == [] then [] else [s[0]] + (if gaps[0] then " " else "") + Spread(s[1..], gaps[1..])
  }

  /** One step of `Spread`. */
  lemma SpreadCons(c: char, gap: bool, t: string, g: seq<bool>)
    requires |g| == |t|
    ensures Spread([c] + t, [gap] + g) == [c] + (if gap then " " else "") + Spread(t, g)
  {
    assert ([c] + t)[1..] == t && ([gap] + g)[1..] == g;
  }

  /** Every marked gap lies between a `left` character and the `right`
      character after it. */
  predicate GapsBetween(s: string, gaps: seq<bool>, left: char -> bool, right: char -> bool)
    requires |gaps| == |s|
  {
    s == [] || ((gaps[0] ==> |s| > 1 && left(s[0]) && right(s[1])) && GapsBetween(s[1..], gaps[1..], left, right))
  }

  /** `GapsBetween`, position by position. */
  lemma {:induction false} GapsBetweenAt(s: string, gaps: seq<bool>, left: char -> bool, right: char -> bool, k: nat)
    requires |gaps| == |s| && GapsBetween(s, gaps, left, right)
    requires k < |s| && gaps[k]
    ensures k + 1 < |s| && left(s[k]) && right(s[k + 1])
  {
    if k > 0 {
      GapsBetweenAt(s[1..], gaps[1..], left, right, k - 1);
      assert s[1..][k - 1] == s[k] && s[1..][k] == s[k + 1];
    }
  }

  /** A tight pair at the front adds one marked gap. */
  lemma GapsAtPair(s: string, g: seq<bool>, left: char -> bool, right: char -> bool)
    requires |s| >= 2 && left(s[0]) && right(s[1]) && |g| == |s| - 2
    requires Spaced(s[2..], left, right) == Spread(s[2..], g) && GapsBetween(s[2..], g, left, right)
    ensures Spaced(s, left, right) == Spread(s, [true, false] + g)
    ensures GapsBetween(s, [true, false] + g, left, right)
  {
    SpreadAtPair(s, g);
    var gaps := [true, false] + g;
    assert s[1..][1..] == s[2..] && gaps[1..][1..] == g;
  }

  /** Spreading with a marked gap after the first character. */
  lemma SpreadAtPair(s: string, g: seq<bool>)
    requires |s| >= 2 && |g| == |s| - 2
    ensures Spread(s, [true, false] + g) == [s[0], ' ', s[1]] + Spread(s[2..], g)
  {
    var gaps := [true, false] + g;
    SpreadCons(s[1], false, s[2..], g);
    assert s[1..] == [s[1]] + s[2..] && [false] + g == gaps[1..];
    SpreadCons(s[0], true, s[1..], gaps[1..]);
    assert s == [s[0]] + s[1..] && gaps == [true] + gaps[1..];
    assert [s[0]] + " " + ([s[1]] + "" + Spread(s[2..], g)) == [s[0], ' ', s[1]] + Spread(s[2..], g);
  }

  /** Any other front character adds an unmarked gap. */
  lemma GapsAtOther(s: string, g: seq<bool>, left: char -> bool, right: char -> bool)
    requires |s| >= 2 && !(left(s[0]) && right(s[1])) && |g| == |s| - 1
    requires Spaced(s[1..], left, right) == Spread(s[1..], g) && GapsBetween(s[1..], g, left, right)
    ensures Spaced(s, left, right) == Spread(s, [false] + g)
    ensures GapsBetween(s, [false] + g, left, right)
  {
    assert s == [s[0]] + s[1..] && ([false] + g)[1..] == g;
    SpreadCons(s[0], false, s[1..], g);
  }

  /** The pass only inserts spaces, and each inserted space stands between a
      `left` character and the `right` character after it. */
  lemma {:induction false} InsertSpaceGaps(s: string, left: char -> bool, right: char -> bool)
    returns (gaps: seq<bool>)
    ensures |gaps| == |s|
    ensures Spaced(s, left, right) == Spread(s, gaps)
    ensures GapsBetween(s, gaps, left, right)
    decreases |s|
  {
    if |s| < 2 {
      gaps := seq(|s|, k => false);
      if s != [] {
        assert s == [s[0]] + [] && gaps == [false] + [];
        SpreadCons(s[0], false, [], []);
      }
    } else if left(s[0]) && right(s[1]) {
      var g := InsertSpaceGaps(s[2..], left, right);
      GapsAtPair(s, g, left, right);
      gaps := [true, false] + g;
    } else {
      var g := InsertSpaceGaps(s[1..], left, right);
      GapsAtOther(s, g, left, right);
      gaps := [false] + g;
    }
  }

  /** Every space the pass adds stands between a `left` character and the
      `right` character after it: the result is `s` with a space after some
      positions `k`, each of which has `left(s[k])` and `right(s[k + 1])`. */
  lemma InsertSpaceOnlyInPairs(s: string, left: char -> bool, right: char -> bool) returns (gaps: seq<bool>)
    ensures |gaps| == |s|
    ensures InsertSpace(s, left, right) == Spread(s, gaps)
    ensures forall k :: 0 <= k < |s| && gaps[k] ==> k + 1 < |s| && left(s[k]) && right(s[k + 1])
  {
    gaps := InsertSpaceGaps(s, left, right);
    forall k | 0 <= k < |s| && gaps[k] ensures k + 1 < |s| && left(s[k]) && right(s[k + 1]) {
      GapsBetweenAt(s, gaps, left, right, k);
    }
  }

  /** Text without a tight pair is left as it is. */
  lemma {:induction false} InsertSpaceUnchanged(s: string, left: char -> bool, right: char -> bool)
    requires NoTightPair(s, left, right)
    ensures InsertSpace(s, left, right) == s
    decreases |s|
  {
    if |s| >= 2 {
      assert !(left(s[0]) && right(s[1]));
      assert NoTightPair(s[1..], left, right) by {
        forall k | 0 <= k < |s[1..]| - 1 ensures !(left(s[1..][k]) && right(s[1..][k + 1])) {
          assert s[1..][k] == s[k + 1] && s[1..][k + 1] == s[k + 2];
        }
      }
      InsertSpaceUnchanged(s[1..], left, right);
      assert s == [s[0]] + s[1..];
    }
  }

  /** When the two classes are disjoint and exclude the space, no tight pair
      survives. */
  lemma {:induction false} InsertSpaceSeparates(s: string, left: char -> bool, right: char -> bool)
    requires forall c :: !(left(c) && right(c))
    requires !left(' ') && !right(' ')
    ensures NoTightPair(InsertSpace(s, left, right), left, right)
    decreases |s|
  {
    if |s| >= 2 {
      if left(s[0]) && right(s[1]) {
        InsertSpaceSeparates(s[2..], left, right);
      } else {
        InsertSpaceSeparates(s[1..], left, right);
      }
    }
  }

  /** Inserting spaces never creates a tight pair of another kind, so the
      effect of an earlier pass survives the later ones. */
  lemma {:induction false} InsertSpaceKeepsSeparated(s: string, left: char -> bool, right: char -> bool,
                                                     left2: char -> bool, right2: char -> bool)
    requires NoTightPair(s, left2, right2)
    requires !left2(' ') && !right2(' ')
    ensures NoTightPair(InsertSpace(s, left, right), left2, right2)
    decreases |s|
  {
    if |s| >= 2 {
      if left(s[0]) && right(s[1]) {
        assert NoTightPair(s[2..], left2, right2) by {
          forall k | 0 <= k < |s[2..]| - 1 ensures !(left2(s[2..][k]) && right2(s[2..][k + 1])) {
            assert s[2..][k] == s[k + 2] && s[2..][k + 1] == s[k + 3];
          }
        }
        InsertSpaceKeepsSeparated(s[2..], left, right, left2, right2);
      } else {
        assert NoTightPair(s[1..], left2, right2) by {
          forall k | 0 <= k < |s[1..]| - 1 ensures !(left2(s[1..][k]) && right2(s[1..][k + 1])) {
            assert s[1..][k] == s[k + 1] && s[1..][k + 1] == s[k + 2];
          }
        }
        InsertSpaceKeepsSeparated(s[1..], left, right, left2, right2);
      }
    }
  }

  predicate IsSemicolon(c: char) { c == ';' }
  predicate IsColon(c: char) { c == ':' }
  predicate IsCloseParen(c: char) { c == ')' }
  predicate IsOpenParen(c: char) { c == '(' }

  /** Lines 597-600: a space after `;`, `:` and `)` when a letter or digit
      follows, and before `(` when a letter or digit precedes. */
  function SpaceAfterPunctuation(s: string): string
  {
    var a := InsertSpace(s, IsSemicolon, IsAlnum);
    var b := InsertSpace(a, IsColon, IsAlnum);
    var c := InsertSpace(b, IsCloseParen, IsAlnum);
    InsertSpace(c, IsAlnum, IsOpenParen)
  }

  /** After the four passes none of the four tight pairs is left; only spaces
      were added, so the text can only grow. */
  lemma SpacingSeparatesAll(s: string)
    ensures var r := SpaceAfterPunctuation(s);
            && NoTightPair(r, IsSemicolon, IsAlnum) && NoTightPair(r, IsColon, IsAlnum)
            && NoTightPair(r, IsCloseParen, IsAlnum) && NoTightPair(r, IsAlnum, IsOpenParen)
            && RemoveChars(r, {' '}) == RemoveChars(s, {' '}) && |r| >= |s|
  {
    var a := InsertSpace(s, IsSemicolon, IsAlnum);
    var b := InsertSpace(a, IsColon, IsAlnum);
    var c := InsertSpace(b, IsCloseParen, IsAlnum);
    InsertSpaceSeparates(s, IsSemicolon, IsAlnum);
    InsertSpaceKeepsSeparated(a, IsColon, IsAlnum, IsSemicolon, IsAlnum);
    InsertSpaceKeepsSeparated(b, IsCloseParen, IsAlnum, IsSemicolon, IsAlnum);
    InsertSpaceKeepsSeparated(c, IsAlnum, IsOpenParen, IsSemicolon, IsAlnum);
    InsertSpaceSeparates(a, IsColon, IsAlnum);
    InsertSpaceKeepsSeparated(b, IsCloseParen, IsAlnum, IsColon, IsAlnum);
    InsertSpaceKeepsSeparated(c, IsAlnum, IsOpenParen, IsColon, IsAlnum);
    InsertSpaceSeparates(b, IsCloseParen, IsAlnum);
    InsertSpaceKeepsSeparated(c, IsAlnum, IsOpenParen, IsCloseParen, IsAlnum);
    InsertSpaceSeparates(c, IsAlnum, IsOpenParen);
  }

  /** `";a"` becomes `"; a"`: this stage lengthens its input. */
  lemma SpacingLengthens(s: string)
    requires s == ";a"
    ensures InsertSpace(s, IsSemicolon, IsAlnum) == "; a"
  {
    assert s[2..] == [] && IsSemicolon(s[0]) && IsAlnum(s[1]);
    assert Spaced(s, IsSemicolon, IsAlnum) == [s[0], ' ', s[1]] + Spaced(s[2..], IsSemicolon, IsAlnum);
  }
}
