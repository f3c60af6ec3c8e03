/** Normalisation helpers for organisations' legal names (nlp.py). */
module LegalName {
  import opened Text

  /** The rewrite of the last word: a legal-form abbreviation spelt out. The
      three rules run in turn, each on the output of the previous one. */
  function LegalTypeWord(w: string): string
  {
    var a := if StartsWith(w, "CORP") then "CORPORATION" else w;
    var b := if StartsWith(a, "INC") then "INCORPORATED" else a;
    if StartsWith(b, "COMP") then "COMPANY" else b
  }

  /** `standardize_legal_type`: split on single spaces, rewrite the last part,
      and rebuild `' '.join(all but last) + ' ' + last`. */
  function StandardizeLegalType(s: string): (r: string)
    ensures EndsWith(r, [' '] + LegalTypeWord(SplitOn(s, {' '})[|SplitOn(s, {' '})| - 1]))
  {
    var parts := SplitOn(s, {' '});
    Join(parts[..|parts| - 1], " ") + " " + LegalTypeWord(parts[|parts| - 1])
  }

  /** At most one rule fires, and which one is decided by the word's own prefix. */
  lemma LegalTypeWordRules(w: string)
    ensures StartsWith(w, "CORP") ==> LegalTypeWord(w) == "CORPORATION"
    ensures StartsWith(w, "INC") ==> LegalTypeWord(w) == "INCORPORATED"
    ensures StartsWith(w, "COMP") ==> LegalTypeWord(w) == "COMPANY"
    ensures !StartsWith(w, "CORP") && !StartsWith(w, "INC") && !StartsWith(w, "COMP") ==>
              LegalTypeWord(w) == w
  {
    if StartsWith(w, "COMP") {
      assert w[..4] == "COMP";
      assert w[..4][3] == 'P' && "CORP"[2] == 'R' && w[2] == 'M';
      assert !StartsWith(w, "CORP");
      assert !StartsWith(w, "INC");
    }
    if StartsWith(w, "INC") {
      assert w[0] == 'I';
      assert !StartsWith(w, "CORP");
    }
  }

  /** Each target word is a fixed point: it starts with its own trigger only. */
  lemma LegalTypeWordIdempotent(w: string)
    ensures LegalTypeWord(LegalTypeWord(w)) == LegalTypeWord(w)
    ensures (forall i :: 0 <= i < |w| ==> w[i] != ' ') ==>
              forall i :: 0 <= i < |LegalTypeWord(w)| ==> LegalTypeWord(w)[i] != ' '
  {
    LegalTypeWordRules(w);
    var r := LegalTypeWord(w);
    assert r == w || r == "CORPORATION" || r == "INCORPORATED" || r == "COMPANY";
    if r == "CORPORATION" {
      assert !StartsWith(r, "INC") && !StartsWith(r, "COMP");
      LegalTypeWordRules(r);
    } else if r == "INCORPORATED" {
      assert !StartsWith(r, "CORP") && !StartsWith(r, "COMP");
      LegalTypeWordRules(r);
    } else if r == "COMPANY" {
      assert !StartsWith(r, "CORP") && !StartsWith(r, "INC");
      LegalTypeWordRules(r);
    }
  }

  /** Everything before the last space is kept verbatim and in order; only the
      last word is rewritten. */
  lemma KeepsAllButLastWord(p: string, w: string)
    requires forall i :: 0 <= i < |w| ==> w[i] != ' '
    ensures StandardizeLegalType(p + " " + w) == p + " " + LegalTypeWord(w)
  {
    SplitOnConcat(p, ' ', w, {' '});
    SplitOnNone(w, {' '});
    var parts := SplitOn(p + " " + w, {' '});
    assert parts == SplitOn(p, {' '}) + [w];
    assert parts[..|parts| - 1] == SplitOn(p, {' '});
    JoinSplit(p, ' ');
  }

  /** A single word gets a leading space: the result always has a space
      before its last word. */
  lemma OneWord(w: string)
    requires forall i :: 0 <= i < |w| ==> w[i] != ' '
    ensures StandardizeLegalType(w) == " " + LegalTypeWord(w)
  {
    SplitOnNone(w, {' '});
  }

  /** Standardising twice is standardising once. */
  lemma StandardizeIdempotent(s: string)
    ensures StandardizeLegalType(StandardizeLegalType(s)) == StandardizeLegalType(s)
  {
    var parts := SplitOn(s, {' '});
    var p := Join(parts[..|parts| - 1], " ");
    var w := parts[|parts| - 1];
    var r := LegalTypeWord(w);
    LegalTypeWordIdempotent(w);
    assert forall i :: 0 <= i < |r| ==> r[i] != ' ';
    KeepsAllButLastWord(p, r);
  }

  /** `clean_string`: either delete every space or strip surrounding
      whitespace, then delete brackets, hyphens and commas. */
  function CleanString(s: string, removeSpaces: bool): string
  {
    var t := if removeSpaces then RemoveChars(s, {' '}) else Strip(s);
    RemoveChars(RemoveChars(RemoveChars(RemoveChars(t, {'('}), {')'}), {'-'}), {','})
  }

  /** The output contains none of the deleted characters, never grows, and
      keeps the remaining characters in order. */
  lemma CleanStringShape(s: string, removeSpaces: bool)
    ensures forall i :: 0 <= i < |CleanString(s, removeSpaces)| ==>
              CleanString(s, removeSpaces)[i] !in {'(', ')', '-', ','}
    ensures removeSpaces ==> forall i :: 0 <= i < |CleanString(s, removeSpaces)| ==>
              CleanString(s, removeSpaces)[i] != ' '
    ensures |CleanString(s, removeSpaces)| <= |s|
    ensures IsSubsequence(CleanString(s, removeSpaces), s)
  {
    var t := if removeSpaces then RemoveChars(s, {' '}) else Strip(s);
    var t1 := RemoveChars(t, {'('});
    var t2 := RemoveChars(t1, {')'});
    var t3 := RemoveChars(t2, {'-'});
    var r := RemoveChars(t3, {','});
    SubsequenceTransitive(r, t3, t2);
    SubsequenceTransitive(r, t2, t1);
    SubsequenceTransitive(r, t1, t);
    SubsequenceTransitive(r, t, s);
    assert forall i :: 0 <= i < |t3| ==> t3[i] != '-' && t3[i] != ')' && t3[i] != '(' by {
      forall i | 0 <= i < |t3| ensures t3[i] != ')' && t3[i] != '(' {
        SubsequenceMembers(t3, t2, i);
        var j :| 0 <= j < |t2| && t2[j] == t3[i];
        SubsequenceMembers(t2, t1, j);
      }
    }
    forall i | 0 <= i < |r| ensures r[i] !in {'(', ')', '-', ','} && (removeSpaces ==> r[i] != ' ') {
      SubsequenceMembers(r, t3, i);
      if removeSpaces {
        SubsequenceMembers(r, t, i);
      }
    }
  }

  /** The four deletions after the first step keep every other count. */
  lemma DeletionsKeepCounts(t: string, c: char)
    requires c !in {'(', ')', '-', ','}
    ensures multiset(RemoveChars(RemoveChars(RemoveChars(RemoveChars(t, {'('}), {')'}), {'-'}), {','}))[c]
            == multiset(t)[c]
  {
    var t1 := RemoveChars(t, {'('});
    var t2 := RemoveChars(t1, {')'});
    var t3 := RemoveChars(t2, {'-'});
    RemoveCharsCounts(t, {'('});
    RemoveCharsCounts(t1, {')'});
    RemoveCharsCounts(t2, {'-'});
    RemoveCharsCounts(t3, {','});
  }

  /** Every character other than the deleted ones keeps its count: with
      `removeSpaces` its count in `s`, otherwise its count in the stripped
      text, which `StripSlice` describes. */
  lemma CleanStringCounts(s: string, removeSpaces: bool, c: char)
    requires c !in {'(', ')', '-', ','}
    ensures removeSpaces && c != ' ' ==> multiset(CleanString(s, removeSpaces))[c] == multiset(s)[c]
    ensures !removeSpaces ==> multiset(CleanString(s, removeSpaces))[c] == multiset(Strip(s))[c]
  {
    var t := if removeSpaces then RemoveChars(s, {' '}) else Strip(s);
    DeletionsKeepCounts(t, c);
    RemoveCharsCounts(s, {' '});
  }

  /** With spaces removed, cleaning twice is cleaning once. */
  lemma CleanStringIdempotent(s: string)
    ensures CleanString(CleanString(s, true), true) == CleanString(s, true)
  {
    var r := CleanString(s, true);
    CleanStringShape(s, true);
    RemoveCharsAbsent(r, {' '});
    RemoveCharsAbsent(r, {'('});
    RemoveCharsAbsent(r, {')'});
    RemoveCharsAbsent(r, {'-'});
    RemoveCharsAbsent(r, {','});
  }

  /** Without space removal, stripping runs before the bracket is deleted, so
      a second pass strips the space the first pass exposed: `"( a"` cleans
      to `" a"`, which cleans to `"a"`. */
  lemma CleanStringNotIdempotentKeepingSpaces(s: string)
    requires s == "( a"
    ensures CleanString(s, false) == " a"
    ensures CleanString(CleanString(s, false), false) == "a"
  {
    StripKeeps(s);
    RemoveOne(s);
    StripDropsLeadingSpace(" a");
    RemoveCharsAbsent("a", {'('});
    RemoveCharsAbsent("a", {')'});
    RemoveCharsAbsent("a", {'-'});
    RemoveCharsAbsent("a", {','});
  }

  lemma StripKeeps(s: string)
    requires |s| > 0 && !IsSpace(s[0]) && !IsSpace(s[|s| - 1])
    ensures Strip(s) == s
  {
  }

  lemma StripDropsLeadingSpace(s: string)
    requires |s| == 2 && s[0] == ' ' && !IsSpace(s[1])
    ensures Strip(s) == s[1..]
  {
    assert StripLeft(s[1..]) == s[1..];
  }

  lemma RemoveOne(s: string)
    requires s == "( a"
    ensures RemoveChars(RemoveChars(RemoveChars(RemoveChars(s, {'('}), {')'}), {'-'}), {','}) == " a"
  {
    assert s[1..] == " a";
    RemoveCharsAbsent(" a", {'('});
    assert RemoveChars(s, {'('}) == " a";
    RemoveCharsAbsent(" a", {')'});
    RemoveCharsAbsent(" a", {'-'});
    RemoveCharsAbsent(" a", {','});
  }
}
