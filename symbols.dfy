/** The rewrites of ` & `, `&`, `/` and `#` the extractor applies after
    punctuation removal (award_id.py:697-705). */
module Symbols {
  import opened Text

  /** Length of the leading run of upper-case letters. */
  function UpperRun(s: string): (n: nat)
    ensures n <= |s|
  {
    if s != [] && IsUpper(s[0]) then 1 + UpperRun(s[1..]) else 0
  }

  /** The run is upper-case throughout and cannot be extended. */
  lemma {:induction false} UpperRunShape(s: string)
    ensures forall k :: 0 <= k < UpperRun(s) ==> IsUpper(s[k])
    ensures UpperRun(s) == |s| || !IsUpper(s[UpperRun(s)])
  {
    if s != [] && IsUpper(s[0]) {
      UpperRunShape(s[1..]);
    }
  }

  /** The characters that may close an acronym after `&`: `[\s\).,;:]`. */
  predicate IsCloser(c: char) { IsSpace(c) || c in {')', '.', ',', ';', ':'} }

  /** The lookahead `(?![A-Z]+[\s\).,;:])` fails on `rest`, the text after an
      `&`: an upper-case run follows, closed by one of the closers. Because
      the closer is not upper-case, only the maximal run needs checking. */
  predicate AcronymFollows(rest: string)
  {
    var n := UpperRun(rest);
    n >= 1 && n < |rest| && IsCloser(rest[n])
  }

  /** Line 698, `re.sub('(?![\s\(][A-Z]+)&(?![A-Z]+[\s\).,;:])', ', ', s)`.
      The first lookahead is evaluated where the `&` itself stands, and `&` is
      neither whitespace nor `(`, so it never fails: an `&` is kept exactly
      when an acronym follows it, and otherwise becomes `", "`. */
  function AmpersandToComma(s: string): (r: string)
    ensures |r| >= |s|
    decreases |s|
  {
    if s == [] then []
    else if s[0] == '&' && !AcronymFollows(s[1..]) then ", " + AmpersandToComma(s[1..])
    else [s[0]] + AmpersandToComma(s[1..])
  }

  /** Line 697, `s.replace(' & ', ' and ')`: an `&` with a space on both
      sides becomes the word `and`. */
  function SpacedAmpersand(s: string): string
  {
    ReplaceAll(s, " & ", " and ")
  }

  /** Lines 697-698 in order: spaced ampersands become `and` first, the
      remaining ones are then rewritten by `AmpersandToComma`. */
  function AmpersandStage(s: string): string
  {
    AmpersandToComma(SpacedAmpersand(s))
  }

  /** Line 697 alone: a single spaced `&` between texts without `&` becomes
      ` and ` and nothing else changes. */
  lemma SpacedAmpersandOnce(a: string, b: string)
    requires '&' !in a && '&' !in b
    ensures SpacedAmpersand(a + " & " + b) == a + " and " + b
  {
    var t := " & " + b;
    assert a + " & " + b == a + t;
    forall k | 0 <= k < |a| ensures !OccursAt(a + t, " & ", k) {
      if k + 1 < |a| {
        assert (a + t)[k + 1] == a[k + 1];
      } else {
        assert (a + t)[k + 1] == ' ';
      }
    }
    ReplaceFreePrefix(a, t, " & ", " and ");
    assert t[..3] == " & " && t[3..] == b;
    MissingCharNotSubstring(b, " & ", 1);
    ReplaceAbsent(b, " & ", " and ");
  }

  /** An `&` between two spaces becomes ` and `, and the rewrite at line 698
      then leaves it alone: `"a & b"` gives `"a and b"`, not `"a ,  b"`. */
  lemma SpacedAmpersandBecomesAnd(a: string, b: string)
    requires '&' !in a && '&' !in b
    ensures AmpersandStage(a + " & " + b) == a + " and " + b
  {
    SpacedAmpersandOnce(a, b);
    var r := a + " and " + b;
    assert '&' !in r;
    assert forall k :: 0 <= k < |r| ==> r[k] != '&';
    AmpersandFreePrefix(r, []);
    assert r + [] == r;
  }

  /** The decision for each `&` depends on the text to its right only: the
      rewrite of any text ends with the rewrite of its suffix. */
  lemma {:induction false} AmpersandRightContextOnly(p: string, t: string)
    ensures EndsWith(AmpersandToComma(p + t), AmpersandToComma(t))
    decreases |p|
  {
    if p != [] {
      assert (p + t)[1..] == p[1..] + t;
      assert (p + t)[0] == p[0];
      AmpersandRightContextOnly(p[1..], t);
    } else {
      assert p + t == t;
    }
  }

  /** `"R&D "` keeps its `&`; `"x&y"` becomes `"x, y"`. */
  lemma AmpersandExamples(a: string, b: string)
    requires a == "R&D " && b == "x&y"
    ensures AmpersandToComma(a) == a
    ensures AmpersandToComma(b) == "x, y"
  {
    assert a[1..] == "&D " && a[2..] == "D " && a[3..] == " " && a[4..] == [];
    assert UpperRun(" ") == 0;
    assert UpperRun("D ") == 1;
    assert AcronymFollows("D ");
    assert AmpersandToComma(" ") == " ";
    assert AmpersandToComma("D ") == "D ";
    assert AmpersandToComma("&D ") == "&D ";
    assert b[1..] == "&y" && b[2..] == "y" && b[3..] == [];
    assert UpperRun("y") == 0;
    assert AmpersandToComma("y") == "y";
  }

  /** A piece without `&` passes through unchanged and in front of the rest. */
  lemma {:induction false} AmpersandFreePrefix(p: string, t: string)
    requires forall k :: 0 <= k < |p| ==> p[k] != '&'
    ensures AmpersandToComma(p + t) == p + AmpersandToComma(t)
    decreases |p|
  {
    if p != [] {
      assert (p + t)[1..] == p[1..] + t;
      AmpersandFreePrefix(p[1..], t);
    } else {
      assert p + t == t;
    }
  }

  /** Every `&` the rewrite keeps is still followed by an acronym in the
      output, so rewriting twice is rewriting once. */
  lemma {:induction false} AmpersandIdempotent(s: string)
    ensures AmpersandToComma(AmpersandToComma(s)) == AmpersandToComma(s)
    decreases |s|
  {
    if s != [] {
      var rest := AmpersandToComma(s[1..]);
      AmpersandIdempotent(s[1..]);
      if s[0] == '&' && !AcronymFollows(s[1..]) {
        AmpersandFreePrefix(", ", rest);
      } else {
        if s[0] == '&' {
          AcronymSurvives(s[1..]);
        }
        assert ([s[0]] + rest)[1..] == rest;
      }
    }
  }

  /** The acronym and its closer after a kept `&` are copied unchanged. */
  lemma AcronymSurvives(t: string)
    requires AcronymFollows(t)
    ensures AcronymFollows(AmpersandToComma(t))
  {
    var n := UpperRun(t);
    UpperRunShape(t);
    var head := t[..n + 1];
    assert t == head + t[n + 1..];
    assert forall k :: 0 <= k < |head| ==> head[k] != '&';
    AmpersandFreePrefix(head, t[n + 1..]);
    var r := AmpersandToComma(t);
    assert r[..n + 1] == head;
    UpperRunPrefix(r, n);
  }

  /** The upper-case run is decided by the first `n + 1` characters. */
  lemma {:induction false} UpperRunPrefix(r: string, n: nat)
    requires n < |r| && !IsUpper(r[n])
    requires forall k :: 0 <= k < n ==> IsUpper(r[k])
    ensures UpperRun(r) == n
  {
    if n > 0 {
      UpperRunPrefix(r[1..], n - 1);
    }
  }

  // ---------------------------------------------------------------------------
  // re.sub(r'(\b[A-Z]+)/([A-Z]+\b)', lambda w: w.group(1) + ' ' + w.group(2), s)
  // ---------------------------------------------------------------------------

  /** The regular-expression assertion `\b` at position `k`. */
  predicate WordBoundary(s: string, k: int)
    requires 0 <= k <= |s|
  {
    (k > 0 && IsWordChar(s[k - 1])) != (k < |s| && IsWordChar(s[k]))
  }

  /** Where the pattern matches at the start of `u`: the position of the
      slash, and the end of the match. `afterWord` says whether the character
      before `u` is a word character; the first run starts with a word
      character, so `\b` holds there exactly when `afterWord` is false. Both
      runs are maximal, since a shorter first run is not followed by `/` and
      a shorter second run ends inside a word. */
  function SlashAt(u: string, afterWord: bool): (m: Option<(nat, nat)>)
    ensures m.Some? ==> 0 < m.value.0 < m.value.1 <= |u| && u[m.value.0] == '/'
  {
    var a := UpperRun(u);
    if a == 0 || afterWord || a >= |u| || u[a] != '/' then None
    else
      var q := a + 1 + UpperRun(u[a + 1..]);
      if q == a + 1 || (q < |u| && IsWordChar(u[q])) then None
      else Some((a, q))
  }

  /** The substitution scans `u` left to right: where no match starts it
      copies one character, otherwise it writes the two runs joined by a
      space and resumes after the match, which ends in a capital. */
  function SlashRewrite(u: string, afterWord: bool): string
    decreases |u|
  {
    if u == [] then []
    else
      match SlashAt(u, afterWord)
      case None => [u[0]] + SlashRewrite(u[1..], IsWordChar(u[0]))
      case Some((j, q)) => u[..j] + " " + u[j + 1..q] + SlashRewrite(u[q..], true)
  }

  /** The replacement of one match is its text with the slash overwritten. */
  lemma SpliceSpace(u: string, j: nat, q: nat)
    requires j < q <= |u|
    ensures u[..j] + " " + u[j + 1..q] == u[..q][j := ' ']
  {
    var v := u[..j] + " " + u[j + 1..q];
    forall p | 0 <= p < q ensures v[p] == u[..q][j := ' '][p] {
      if p < j {
        assert v[p] == u[..j][p];
      } else if p > j {
        assert v[p] == u[j + 1..q][p - j - 1];
      }
    }
  }

  /** The rewrite keeps the length and only turns slashes into spaces. */
  lemma {:induction false} SlashRewriteShape(u: string, afterWord: bool)
    ensures |SlashRewrite(u, afterWord)| == |u|
    ensures forall p :: 0 <= p < |u| ==>
              SlashRewrite(u, afterWord)[p] == u[p] || (u[p] == '/' && SlashRewrite(u, afterWord)[p] == ' ')
    decreases |u|
  {
    if u != [] {
      var r := SlashRewrite(u, afterWord);
      match SlashAt(u, afterWord)
      case None =>
        var rest := SlashRewrite(u[1..], IsWordChar(u[0]));
        SlashRewriteShape(u[1..], IsWordChar(u[0]));
        assert r == [u[0]] + rest;
        forall p | 0 < p < |u| ensures r[p] == rest[p - 1] { }
      case Some((j, q)) =>
        var rest := SlashRewrite(u[q..], true);
        var v := u[..q][j := ' '];
        SlashRewriteShape(u[q..], true);
        SpliceSpace(u, j, q);
        assert r == v + rest;
        forall p | 0 <= p < |u|
          ensures r[p] == u[p] || (u[p] == '/' && r[p] == ' ')
        {
          if p < q {
            assert r[p] == v[p];
          } else {
            assert r[p] == rest[p - q];
          }
        }
    }
  }

  /** Line 702, `re.sub(r'(\b[A-Z]+)/([A-Z]+\b)', ...)`: `AAA/BBB` becomes
      `AAA BBB`. `SlashRewriteShape` shows that only slashes change, into
      spaces. */
  function SlashToSpace(s: string): (r: string)
    ensures |r| == |s|
  {
    SlashRewriteShape(s, false);
    SlashRewrite(s, false)
  }

  /** A character the rewrite changes is a slash between capitals. */
  lemma {:induction false} SlashChangedAt(u: string, afterWord: bool, p: nat)
    requires p < |u| && p < |SlashRewrite(u, afterWord)|
    requires SlashRewrite(u, afterWord)[p] != u[p]
    ensures 0 < p < |u| - 1 && u[p] == '/' && IsUpper(u[p - 1]) && IsUpper(u[p + 1])
    decreases |u|
  {
    var r := SlashRewrite(u, afterWord);
    match SlashAt(u, afterWord)
    case None =>
      assert p != 0;
      assert r[p] == SlashRewrite(u[1..], IsWordChar(u[0]))[p - 1];
      SlashChangedAt(u[1..], IsWordChar(u[0]), p - 1);
    case Some((j, q)) =>
      var a := UpperRun(u);
      UpperRunShape(u);
      UpperRunShape(u[j + 1..]);
      SpliceSpace(u, j, q);
      var v := u[..q][j := ' '];
      var rest := SlashRewrite(u[q..], true);
      assert r == v + rest;
      if p < j {
        assert false;
      } else if p == j {
        assert u[j + 1] == u[j + 1..][0];
      } else if p < q {
        assert false;
      } else {
        assert r[p] == rest[p - q];
        SlashChangedAt(u[q..], true, p - q);
      }
  }

  /** Every character the rewrite changes is a slash that stands between
      two upper-case letters. */
  lemma SlashBetweenCapitals(s: string, p: nat)
    requires p < |s| && SlashToSpace(s)[p] != s[p]
    ensures 0 < p < |s| - 1 && s[p] == '/' && IsUpper(s[p - 1]) && IsUpper(s[p + 1])
  {
    SlashChangedAt(s, false, p);
  }

  /** The match consumes the second run, so in `A/B/C` only the first slash
      is replaced: the result is `A B/C`. */
  lemma ChainedSlashes(s: string)
    requires s == "A/B/C"
    ensures SlashToSpace(s) == "A B/C"
  {
    assert UpperRun(s) == 1 by {
      assert s[1..] == "/B/C";
    }
    assert s[2..] == "B/C" && UpperRun(s[2..]) == 1 by {
      assert s[2..][1..] == "/C";
    }
    assert SlashAt(s, false) == Some((1, 3));
    assert s[..1] == "A" && s[2..3] == "B" && s[3..] == "/C";
    var t := s[3..];
    assert UpperRun(t) == 0;
    assert t[1..] == "C" && UpperRun(t[1..]) == 1 by {
      assert t[1..][1..] == [];
    }
    assert SlashAt(t[1..], false) == None;
    assert SlashRewrite(t[1..], false) == "C";
    assert SlashRewrite(t, true) == "/C";
  }

  /** The run is unchanged by text appended after a character that ends it. */
  lemma UpperRunConcat(u: string, v: string)
    requires u != [] && !IsUpper(u[|u| - 1])
    ensures UpperRun(u + v) == UpperRun(u) < |u|
  {
    UpperRunShape(u);
    UpperRunPrefix(u + v, UpperRun(u));
  }

  /** A text ending in a character that is neither upper-case nor `/`: no
      match inside it can reach past its end. */
  predicate ClosedPiece(x: string)
  {
    x == [] || (!IsUpper(x[|x| - 1]) && x[|x| - 1] != '/')
  }

  /** At the start of a closed piece the match does not depend on what
      follows the piece, and it ends inside the piece. */
  lemma SlashAtClosed(x: string, t: string, afterWord: bool)
    requires x != [] && ClosedPiece(x)
    ensures SlashAt(x + t, afterWord) == SlashAt(x, afterWord)
    ensures SlashAt(x, afterWord).Some? ==> SlashAt(x, afterWord).value.1 < |x|
  {
    UpperRunConcat(x, t);
    var a := UpperRun(x);
    assert (x + t)[a] == x[a];
    if x[a] == '/' {
      assert (x + t)[a + 1..] == x[a + 1..] + t;
      assert x[a + 1..][|x| - a - 2] == x[|x| - 1];
      UpperRunConcat(x[a + 1..], t);
      var q := a + 1 + UpperRun(x[a + 1..]);
      assert (x + t)[q] == x[q];
    }
  }

  /** One step of the rewrite where no match starts. */
  lemma SlashRewriteNoMatch(u: string, afterWord: bool)
    requires u != [] && SlashAt(u, afterWord).None?
    ensures SlashRewrite(u, afterWord) == [u[0]] + SlashRewrite(u[1..], IsWordChar(u[0]))
  {
  }

  /** Whether the character just before the text that follows `x` is a word
      character, when the character before `x` is one exactly if `afterWord`. */
  function After(x: string, afterWord: bool): bool
  {
    if x == [] then afterWord else IsWordChar(x[|x| - 1])
  }

  /** One step of the rewrite of `x + t` where no match starts. */
  lemma ConcatNoMatch(x: string, t: string, afterWord: bool)
    requires x != [] && SlashAt(x + t, afterWord).None?
    ensures SlashRewrite(x + t, afterWord) == [x[0]] + SlashRewrite(x[1..] + t, IsWordChar(x[0]))
  {
    var s := x + t;
    assert s[1..] == x[1..] + t && s[0] == x[0];
    SlashRewriteNoMatch(s, afterWord);
  }

  /** One step of the rewrite of `x + t` at a match that ends inside `x`. */
  lemma ConcatAtMatch(x: string, t: string, afterWord: bool, j: nat, q: nat)
    requires SlashAt(x + t, afterWord) == Some((j, q)) && q <= |x|
    ensures SlashRewrite(x + t, afterWord) == x[..j] + " " + x[j + 1..q] + SlashRewrite(x[q..] + t, true)
  {
    var s := x + t;
    assert s[..j] == x[..j] && s[j + 1..q] == x[j + 1..q];
    assert s[q..] == x[q..] + t;
    SlashRewriteAtMatch(s, afterWord, j, q);
  }

  /** The rewrite of a closed piece followed by more text is the rewrite of
      the piece followed by the rewrite of the rest. */
  lemma {:induction false} SlashRewritePrefix(x: string, t: string, afterWord: bool)
    requires ClosedPiece(x)
    ensures SlashRewrite(x + t, afterWord) == SlashRewrite(x, afterWord) + SlashRewrite(t, After(x, afterWord))
    decreases |x|
  {
    if x == [] {
      assert x + t == t;
    } else {
      var tail := SlashRewrite(t, After(x, afterWord));
      SlashAtClosed(x, t, afterWord);
      match SlashAt(x, afterWord)
      case None =>
        var rest := SlashRewrite(x[1..], IsWordChar(x[0]));
        assert After(x[1..], IsWordChar(x[0])) == After(x, afterWord);
        SlashRewritePrefix(x[1..], t, IsWordChar(x[0]));
        ConcatNoMatch(x, t, afterWord);
        SlashRewriteNoMatch(x, afterWord);
        AppendAssoc([x[0]], rest, tail);
      case Some((j, q)) =>
        var head := x[..j] + " " + x[j + 1..q];
        var rest := SlashRewrite(x[q..], true);
        assert After(x[q..], true) == After(x, afterWord);
        SlashRewritePrefix(x[q..], t, true);
        ConcatAtMatch(x, t, afterWord, j, q);
        SlashRewriteAtMatch(x, afterWord, j, q);
        AppendAssoc(head, rest, tail);
    }
  }

  /** Before a non-word character, or at the end, whether a word character
      came first makes no difference. */
  lemma SlashRewriteAfterNonWord(u: string, w1: bool, w2: bool)
    requires u == [] || !IsWordChar(u[0])
    ensures SlashRewrite(u, w1) == SlashRewrite(u, w2)
  {
  }

  /** The pattern matches at the start of `u` when its parts are there. */
  lemma SlashAtFound(u: string, a: nat, b: nat)
    requires a > 0 && UpperRun(u) == a && a < |u| && u[a] == '/'
    requires b > 0 && UpperRun(u[a + 1..]) == b
    requires a + 1 + b == |u| || !IsWordChar(u[a + 1 + b])
    ensures SlashAt(u, false) == Some((a, a + 1 + b))
  {
  }

  /** One step of the rewrite at a match. */
  lemma SlashRewriteAtMatch(u: string, afterWord: bool, j: nat, q: nat)
    requires SlashAt(u, afterWord) == Some((j, q))
    ensures SlashRewrite(u, afterWord) == u[..j] + " " + u[j + 1..q] + SlashRewrite(u[q..], true)
  {
  }

  /** The pieces of `a + "/" + b + y` by position. */
  lemma PairSlices(a: string, b: string, y: string)
    ensures var m := a + ("/" + (b + y));
            && m[..|a|] == a && m[|a|] == '/' && m[|a| + 1..] == b + y
            && m[|a| + 1..|a| + 1 + |b|] == b && m[|a| + 1 + |b|..] == y
  {
    var rest := "/" + (b + y);
    var m := a + rest;
    assert m[|a|..] == rest;
    assert rest[1..] == b + y;
    assert (b + y)[..|b|] == b && (b + y)[|b|..] == y;
  }

  /** The upper-case runs of `a + "/" + b + y` are `a` and `b`. */
  lemma PairRuns(a: string, b: string, y: string)
    requires forall k :: 0 <= k < |a| ==> IsUpper(a[k])
    requires forall k :: 0 <= k < |b| ==> IsUpper(b[k])
    requires y == [] || !IsWordChar(y[0])
    ensures UpperRun(a + ("/" + (b + y))) == |a|
    ensures UpperRun(b + y) == |b|
  {
    var m := a + ("/" + (b + y));
    assert m[|a|] == '/';
    UpperRunPrefix(m, |a|);
    if y == [] {
      UpperRunShape(b);
      assert b + y == b;
    } else {
      UpperRunPrefix(b + y, |b|);
    }
  }

  /** Two upper-case runs joined by `/` at the start of the text, followed by
      a non-word character or the end, are joined by a space instead. */
  lemma SlashPairAtStart(a: string, b: string, y: string)
    requires a != [] && forall k :: 0 <= k < |a| ==> IsUpper(a[k])
    requires b != [] && forall k :: 0 <= k < |b| ==> IsUpper(b[k])
    requires y == [] || !IsWordChar(y[0])
    ensures SlashRewrite(a + ("/" + (b + y)), false) == a + " " + b + SlashRewrite(y, true)
  {
    var m := a + ("/" + (b + y));
    PairSlices(a, b, y);
    PairRuns(a, b, y);
    SlashAtFound(m, |a|, |b|);
    SlashRewriteAtMatch(m, false, |a|, |a| + 1 + |b|);
  }

  /** Line 702 on a delimited pair: in `x + a + "/" + b + y` with upper-case
      runs `a`, `b`, nothing around them word characters and `x` not ending
      in `/`, the pair becomes `a + " " + b` and the texts around it are
      rewritten on their own. `ChainedSlashes` shows why `x` must not end in
      `/`: with `x == "A/"`, the match `A/B` takes the `B` first. */
  lemma SlashPairReplaced(x: string, a: string, b: string, y: string)
    requires x == [] || (!IsWordChar(x[|x| - 1]) && x[|x| - 1] != '/')
    requires a != [] && forall k :: 0 <= k < |a| ==> IsUpper(a[k])
    requires b != [] && forall k :: 0 <= k < |b| ==> IsUpper(b[k])
    requires y == [] || !IsWordChar(y[0])
    ensures SlashToSpace(x + a + "/" + b + y) == SlashToSpace(x) + a + " " + b + SlashToSpace(y)
  {
    var m := a + ("/" + (b + y));
    Regroup(x, a, "/", b, y);
    SlashRewritePrefix(x, m, false);
    SlashPairAtStart(a, b, y);
    SlashRewriteAfterNonWord(y, true, false);
    Regroup(SlashToSpace(x), a, " ", b, SlashToSpace(y));
  }

  /** Concatenation of five pieces, grouped to the left and to the right. */
  lemma Regroup(x: string, a: string, c: string, b: string, y: string)
    ensures x + a + c + b + y == x + (a + (c + (b + y)))
    ensures x + a + c + b + y == x + (a + c + b + y)
  {
  }

  /** Line 705: every `#` becomes a space. */
  function HashToSpace(s: string): (r: string)
    ensures |r| == |s|
    ensures forall k :: 0 <= k < |s| ==> r[k] == if s[k] == '#' then ' ' else s[k]
  {
    ReplaceChars(s, {'#'}, ' ')
  }
}
