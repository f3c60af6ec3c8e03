/** Character classes and string operations the extractor is built from, with
    the meaning Python's built-in string methods and regular-expression classes
    give them on ASCII text. */
module Text {

  /** An optional value. */
  datatype Option<T> = None | Some(value: T)

  // ---------------------------------------------------------------------------
  // Characters
  // ---------------------------------------------------------------------------

  predicate IsDigit(c: char) { '0' <= c <= '9' }
  predicate IsUpper(c: char) { 'A' <= c <= 'Z' }
  predicate IsLower(c: char) { 'a' <= c <= 'z' }
  predicate IsLetter(c: char) { IsUpper(c) || IsLower(c) }
  predicate IsAlnum(c: char) { IsLetter(c) || IsDigit(c) }

  /** The regular-expression class `\w`. */
  predicate IsWordChar(c: char) { IsAlnum(c) || c == '_' }

  /** The regular-expression class `\s` and `str.isspace` on ASCII: space,
      tab, the line and page breaks, and the separators `\x1c` to `\x1f`. */
  predicate IsSpace(c: char) {
    || c == ' ' || c == '\t' || c == '\n' || c == '\r' || c == '\U{B}' || c == '\U{C}'
    || ('\U{1C}' <= c <= '\U{1F}')
  }

  /** Python's `string.punctuation`. */
  const Punctuation: set<char> :=
    {'!', '"', '#', '$', '%', '&', '\'', '(', ')', '*', '+', ',', '-', '.', '/',
     ':', ';', '<', '=', '>', '?', '@', '[', '\\', ']', '^', '_', '`', '{', '|',
     '}', '~'}

  /** The "stop" characters of the extractor: hard separators between pieces. */
  const Stops: set<char> := {'.', ',', ';', ':'}

  // ---------------------------------------------------------------------------
  // Python's string predicates
  // ---------------------------------------------------------------------------

  predicate HasDigit(s: string) { exists i :: 0 <= i < |s| && IsDigit(s[i]) }
  predicate HasLower(s: string) { exists i :: 0 <= i < |s| && IsLower(s[i]) }
  predicate HasUpper(s: string) { exists i :: 0 <= i < |s| && IsUpper(s[i]) }

  /** `str.isupper`: at least one cased character and no lower-case one. */
  predicate PyIsUpper(s: string) { HasUpper(s) && !HasLower(s) }

  /** `str.isalpha`: non-empty and letters only. */
  predicate PyIsAlpha(s: string) { |s| > 0 && forall i :: 0 <= i < |s| ==> IsLetter(s[i]) }

  /** `str.isnumeric`: non-empty and digits only. */
  predicate PyIsNumeric(s: string) { |s| > 0 && forall i :: 0 <= i < |s| ==> IsDigit(s[i]) }

  predicate StartsWith(s: string, p: string) { |p| <= |s| && s[..|p|] == p }
  predicate EndsWith(s: string, p: string) { |p| <= |s| && s[|s| - |p|..] == p }

  /** `p` occurs in `s` at position `k`. */
  predicate OccursAt(s: string, p: string, k: int) {
    0 <= k && k + |p| <= |s| && s[k..k + |p|] == p
  }

  /** Python's `p in s` on strings. */
  predicate IsSubstring(p: string, s: string) { exists k :: 0 <= k <= |s| && OccursAt(s, p, k) }

  /** `a` is `b` with some characters deleted. */
  predicate IsSubsequence(a: string, b: string)
    decreases |b|
  {
    if a == [] then true
    else if b == [] then false
    else if a[0] == b[0] then IsSubsequence(a[1..], b[1..])
    else IsSubsequence(a, b[1..])
  }

  // ---------------------------------------------------------------------------
  // Character deletion and mapping
  // ---------------------------------------------------------------------------

  /** `s.translate(str.maketrans('', '', drop))`: every character of `drop` deleted. */
  function RemoveChars(s: string, drop: set<char>): (r: string)
    ensures |r| <= |s|
    ensures forall i :: 0 <= i < |r| ==> r[i] !in drop
    ensures IsSubsequence(r, s)
  {
    if s == [] then []
    else if s[0] in drop then RemoveChars(s[1..], drop)
    else [s[0]] + RemoveChars(s[1..], drop)
  }

  /** Every character of `from` replaced by `to`. */
  function ReplaceChars(s: string, from: set<char>, to: char): (r: string)
    ensures |r| == |s|
    ensures forall i :: 0 <= i < |s| ==> r[i] == if s[i] in from then to else s[i]
  {
    if s == [] then [] else [if s[0] in from then to else s[0]] + ReplaceChars(s[1..], from, to)
  }

  /** `str.lower` on ASCII. */
  function ToLower(s: string): (r: string)
    ensures |r| == |s|
    ensures !HasUpper(r)
    ensures forall i :: 0 <= i < |s| ==> r[i] == if IsUpper(s[i]) then s[i] - 'A' + 'a' else s[i]
  {
    if s == [] then []
    else [if IsUpper(s[0]) then s[0] - 'A' + 'a' else s[0]] + ToLower(s[1..])
  }

  /** `str.strip()`: leading and trailing whitespace removed. */
  function Strip(s: string): (r: string)
    ensures |r| <= |s|
    ensures r != [] ==> !IsSpace(r[0]) && !IsSpace(r[|r| - 1])
    ensures IsSubsequence(r, s)
  {
    var t := StripLeft(s);
    PrefixIsSubsequence(StripRight(t), t);
    SuffixIsSubsequence(t, s);
    SubsequenceTransitive(StripRight(t), t, s);
    StripRight(StripLeft(s))
  }

  function StripLeft(s: string): (r: string)
    ensures r != [] ==> !IsSpace(r[0])
    ensures |r| <= |s| && r == s[|s| - |r|..]
  {
    if s != [] && IsSpace(s[0]) then StripLeft(s[1..]) else s
  }

  function StripRight(s: string): (r: string)
    ensures r != [] ==> !IsSpace(r[|r| - 1])
    ensures |r| <= |s| && r == s[..|r|]
    ensures s != [] && !IsSpace(s[0]) ==> r != [] && r[0] == s[0]
  {
    if s != [] && IsSpace(s[|s| - 1]) then StripRight(s[..|s| - 1]) else s
  }

  /** Everything `StripLeft` drops is whitespace. */
  lemma {:induction false} StripLeftDrops(s: string)
    ensures forall k :: 0 <= k < |s| - |StripLeft(s)| ==> IsSpace(s[k])
  {
    if s != [] && IsSpace(s[0]) {
      StripLeftDrops(s[1..]);
      assert forall k :: 1 <= k < |s| ==> s[k] == s[1..][k - 1];
    }
  }

  /** Everything `StripRight` drops is whitespace. */
  lemma {:induction false} StripRightDrops(s: string)
    ensures forall k :: |StripRight(s)| <= k < |s| ==> IsSpace(s[k])
  {
    if s != [] && IsSpace(s[|s| - 1]) {
      StripRightDrops(s[..|s| - 1]);
      assert forall k :: 0 <= k < |s| - 1 ==> s[k] == s[..|s| - 1][k];
    }
  }

  /** Whitespace at the end of a suffix `s[i..]` is whitespace at the end of `s`. */
  lemma SuffixSpaces(s: string, i: nat, t: string, m: nat)
    requires i <= |s| && t == s[i..] && m <= |t|
    requires forall k :: m <= k < |t| ==> IsSpace(t[k])
    ensures forall k :: i + m <= k < |s| ==> IsSpace(s[k])
  {
    forall k | i + m <= k < |s| ensures IsSpace(s[k]) {
      assert s[k] == t[k - i];
    }
  }

  /** `str.strip()` keeps one slice `s[i..j]`: all that goes before it and
      after it is whitespace, and the slice neither starts nor ends with
      whitespace. */
  lemma StripSlice(s: string) returns (i: nat, j: nat)
    ensures i <= j <= |s| && Strip(s) == s[i..j]
    ensures forall k :: 0 <= k < i ==> IsSpace(s[k])
    ensures forall k :: j <= k < |s| ==> IsSpace(s[k])
    ensures i < j ==> !IsSpace(s[i]) && !IsSpace(s[j - 1])
  {
    var t := StripLeft(s);
    var u := StripRight(t);
    i := |s| - |t|;
    j := i + |u|;
    StripLeftDrops(s);
    StripRightDrops(t);
    SuffixSpaces(s, i, t, |u|);
    assert u == s[i..j] by {
      assert t == s[i..] && u == t[..|u|];
    }
  }

  // ---------------------------------------------------------------------------
  // str.replace, str.split, str.join
  // ---------------------------------------------------------------------------

  /** `s.replace(pat, rep)`: occurrences found left to right, never overlapping. */
  function ReplaceAll(s: string, pat: string, rep: string): (r: string)
    requires |pat| > 0
    decreases |s|
  {
    if |s| < |pat| then s
    else if s[..|pat|] == pat then rep + ReplaceAll(s[|pat|..], pat, rep)
    else [s[0]] + ReplaceAll(s[1..], pat, rep)
  }

  /** `s.split(sep)` generalised to a set of single-character separators
      (`re.split('-|/', s)` when `seps` is `{'-', '/'}`); empty parts are kept. */
  function SplitOn(s: string, seps: set<char>): (parts: seq<string>)
    ensures |parts| > 0
    ensures forall i, j :: 0 <= i < |parts| && 0 <= j < |parts[i]| ==> parts[i][j] !in seps
  {
    if s == [] then [[]]
    else
      var rest := SplitOn(s[1..], seps);
      if s[0] in seps then [[]] + rest else [[s[0]] + rest[0]] + rest[1..]
  }

  /** `sep.join(parts)`. */
  function Join(parts: seq<string>, sep: string): (r: string)
  {
    if |parts| == 0 then []
    else if |parts| == 1 then parts[0]
    else parts[0] + sep + Join(parts[1..], sep)
  }

  // ---------------------------------------------------------------------------
  // Lemmas
  // ---------------------------------------------------------------------------

  lemma {:induction false} RemoveCharsConcat(a: string, b: string, drop: set<char>)
    ensures RemoveChars(a + b, drop) == RemoveChars(a, drop) + RemoveChars(b, drop)
  {
    if a != [] {
      assert (a + b)[1..] == a[1..] + b;
      RemoveCharsConcat(a[1..], b, drop);
    } else {
      assert a + b == b;
    }
  }

  /** Deleting characters keeps every other character as often as it occurs. */
  lemma {:induction false} RemoveCharsCounts(s: string, drop: set<char>)
    ensures forall c :: c !in drop ==> multiset(RemoveChars(s, drop))[c] == multiset(s)[c]
  {
    if s != [] {
      RemoveCharsCounts(s[1..], drop);
      assert s == [s[0]] + s[1..];
    }
  }

  /** Deleting characters that do not occur changes nothing. */
  lemma {:induction false} RemoveCharsAbsent(s: string, drop: set<char>)
    requires forall i :: 0 <= i < |s| ==> s[i] !in drop
    ensures RemoveChars(s, drop) == s
  {
    if s != [] {
      RemoveCharsAbsent(s[1..], drop);
    }
  }

  lemma {:induction false} SubsequenceTransitive(a: string, b: string, c: string)
    requires IsSubsequence(a, b) && IsSubsequence(b, c)
    ensures IsSubsequence(a, c)
    decreases |c|
  {
    if a != [] {
      if b[0] == c[0] {
        if a[0] == b[0] {
          SubsequenceTransitive(a[1..], b[1..], c[1..]);
        } else {
          SubsequenceTransitive(a, b[1..], c[1..]);
        }
      } else {
        SubsequenceTransitive(a, b, c[1..]);
        SubsequenceCons(a, c);
      }
    }
  }

  /** A subsequence of the tail is a subsequence of the whole. */
  lemma {:induction false} SubsequenceCons(x: string, b: string)
    requires b != [] && IsSubsequence(x, b[1..])
    ensures IsSubsequence(x, b)
    decreases |b|, 0
  {
    if x != [] && x[0] == b[0] {
      SubsequenceDropHead(x, b[1..]);
    }
  }

  lemma {:induction false} SubsequenceDropHead(a: string, b: string)
    requires a != [] && IsSubsequence(a, b)
    ensures IsSubsequence(a[1..], b)
    decreases |b|, 1
  {
    if a[0] == b[0] {
      SubsequenceCons(a[1..], b);
    } else {
      SubsequenceDropHead(a, b[1..]);
      SubsequenceCons(a[1..], b);
    }
  }

  lemma {:induction false} PrefixIsSubsequence(a: string, b: string)
    requires |a| <= |b| && a == b[..|a|]
    ensures IsSubsequence(a, b)
  {
    if a != [] {
      assert a[1..] == b[1..][..|a| - 1];
      PrefixIsSubsequence(a[1..], b[1..]);
    }
  }

  lemma {:induction false} SuffixIsSubsequence(a: string, b: string)
    requires |a| <= |b| && a == b[|b| - |a|..]
    ensures IsSubsequence(a, b)
    decreases |b|
  {
    if a != [] {
      if |a| == |b| {
        assert a == b;
        PrefixIsSubsequence(a, b);
      } else {
        assert a == b[1..][|b| - 1 - |a|..];
        SuffixIsSubsequence(a, b[1..]);
        SubsequenceCons(a, b);
      }
    }
  }

  /** Every character of a subsequence comes from the larger string. */
  lemma {:induction false} SubsequenceMembers(a: string, b: string, i: int)
    requires IsSubsequence(a, b) && 0 <= i < |a|
    ensures exists j :: 0 <= j < |b| && b[j] == a[i]
    decreases |b|
  {
    if a[0] == b[0] {
      if i > 0 {
        SubsequenceMembers(a[1..], b[1..], i - 1);
        var j :| 0 <= j < |b| - 1 && b[1..][j] == a[1..][i - 1];
        assert b[j + 1] == a[i];
      }
    } else {
      SubsequenceMembers(a, b[1..], i);
      var j :| 0 <= j < |b| - 1 && b[1..][j] == a[i];
      assert b[j + 1] == a[i];
    }
  }

  lemma {:induction false} SubsequenceLength(a: string, b: string)
    requires IsSubsequence(a, b)
    ensures |a| <= |b|
    decreases |b|
  {
    if a != [] {
      if a[0] == b[0] {
        SubsequenceLength(a[1..], b[1..]);
      } else {
        SubsequenceLength(a, b[1..]);
      }
    }
  }

  /** A pattern that does not occur is never replaced. */
  lemma {:induction false} ReplaceAbsent(s: string, pat: string, rep: string)
    requires |pat| > 0
    requires !IsSubstring(pat, s)
    ensures ReplaceAll(s, pat, rep) == s
    decreases |s|
  {
    if |s| >= |pat| {
      assert !OccursAt(s, pat, 0);
      assert !IsSubstring(pat, s[1..]) by {
        forall k | OccursAt(s[1..], pat, k) ensures false {
          assert s[k + 1..k + 1 + |pat|] == s[1..][k..k + |pat|];
          assert OccursAt(s, pat, k + 1);
        }
      }
      ReplaceAbsent(s[1..], pat, rep);
    }
  }

  /** Concatenation is associative. */
  lemma AppendAssoc(a: string, b: string, c: string)
    ensures a + (b + c) == a + b + c
  {
  }

  /** A pattern holding a character the text lacks does not occur in it. */
  lemma MissingCharNotSubstring(s: string, pat: string, i: nat)
    requires i < |pat| && pat[i] !in s
    ensures !IsSubstring(pat, s)
  {
    forall k | 0 <= k <= |s| ensures !OccursAt(s, pat, k) {
      if k + |pat| <= |s| {
        assert s[k..k + |pat|][i] == s[k + i];
      }
    }
  }

  /** Dropping the first character of the prefix keeps it free of occurrences. */
  lemma FreePrefixTail(p: string, t: string, pat: string)
    requires p != []
    requires forall k :: 0 <= k < |p| ==> !OccursAt(p + t, pat, k)
    ensures forall k :: 0 <= k < |p| - 1 ==> !OccursAt(p[1..] + t, pat, k)
  {
    var s := p + t;
    assert s[1..] == p[1..] + t;
    forall k | 0 <= k < |p| - 1 ensures !OccursAt(p[1..] + t, pat, k) {
      if OccursAt(p[1..] + t, pat, k) {
        assert s[k + 1..k + 1 + |pat|] == s[1..][k..k + |pat|];
        assert OccursAt(s, pat, k + 1);
      }
    }
  }

  /** Where the pattern does not start, `ReplaceAll` copies one character. */
  lemma ReplaceAllNoMatch(s: string, pat: string, rep: string)
    requires |pat| > 0 && s != [] && !OccursAt(s, pat, 0)
    ensures ReplaceAll(s, pat, rep) == [s[0]] + ReplaceAll(s[1..], pat, rep)
  {
    if |s| >= |pat| {
      assert s[0..|pat|] == s[..|pat|];
    } else {
      assert ReplaceAll(s[1..], pat, rep) == s[1..];
      assert s == [s[0]] + s[1..];
    }
  }

  /** A prefix in which no occurrence of the pattern starts is copied as it is. */
  lemma {:induction false} ReplaceFreePrefix(p: string, t: string, pat: string, rep: string)
    requires |pat| > 0
    requires forall k :: 0 <= k < |p| ==> !OccursAt(p + t, pat, k)
    ensures ReplaceAll(p + t, pat, rep) == p + ReplaceAll(t, pat, rep)
    decreases |p|
  {
    if p == [] {
      assert p + t == t;
    } else {
      var s := p + t;
      assert !OccursAt(s, pat, 0);
      ReplaceAllNoMatch(s, pat, rep);
      assert s[1..] == p[1..] + t && s[0] == p[0];
      FreePrefixTail(p, t, pat);
      ReplaceFreePrefix(p[1..], t, pat, rep);
      AppendAssoc([p[0]], p[1..], ReplaceAll(t, pat, rep));
      assert [p[0]] + p[1..] == p;
    }
  }

  /** A replacement no longer than its pattern never lengthens the text. */
  lemma {:induction false} ReplaceShrinks(s: string, pat: string, rep: string)
    requires 0 < |pat| && |rep| <= |pat|
    ensures |ReplaceAll(s, pat, rep)| <= |s|
    decreases |s|
  {
    if |s| >= |pat| {
      if s[..|pat|] == pat {
        ReplaceShrinks(s[|pat|..], pat, rep);
      } else {
        ReplaceShrinks(s[1..], pat, rep);
      }
    }
  }

  /** If `s.replace(pat, rep)` changed anything, `rep` occurs in the result. */
  lemma {:induction false} ReplaceChangedShowsRep(s: string, pat: string, rep: string)
    requires |pat| > 0
    ensures ReplaceAll(s, pat, rep) == s || IsSubstring(rep, ReplaceAll(s, pat, rep))
    decreases |s|
  {
    var r := ReplaceAll(s, pat, rep);
    if |s| >= |pat| {
      if s[..|pat|] == pat {
        assert OccursAt(r, rep, 0);
      } else {
        var t := ReplaceAll(s[1..], pat, rep);
        ReplaceChangedShowsRep(s[1..], pat, rep);
        assert r == [s[0]] + t;
        if t != s[1..] {
          var k :| 0 <= k <= |t| && OccursAt(t, rep, k);
          assert r[k + 1..k + 1 + |rep|] == t[k..k + |rep|];
          assert OccursAt(r, rep, k + 1);
        } else {
          assert r == [s[0]] + s[1..] == s;
        }
      }
    }
  }

  lemma SubstringLength(p: string, s: string)
    requires IsSubstring(p, s)
    ensures |p| <= |s|
    ensures |p| == |s| ==> p == s
  {
    var k :| 0 <= k <= |s| && OccursAt(s, p, k);
    assert |p| == |s| ==> k == 0 && s[..|s|] == s;
  }

  lemma {:induction false} SubstringTransitive(a: string, b: string, c: string)
    requires IsSubstring(a, b) && IsSubstring(b, c)
    ensures IsSubstring(a, c)
  {
    var k :| 0 <= k <= |b| && OccursAt(b, a, k);
    var l :| 0 <= l <= |c| && OccursAt(c, b, l);
    assert forall i :: 0 <= i < |a| ==> c[l + k + i] == b[k + i] == a[i];
    assert c[l + k..l + k + |a|] == a;
    assert OccursAt(c, a, l + k);
  }

  lemma SubstringReflexive(s: string)
    ensures IsSubstring(s, s)
  {
    assert OccursAt(s, s, 0);
  }

  /** Splitting at a separator character splits the two sides independently. */
  lemma {:induction false} SplitOnConcat(x: string, c: char, y: string, seps: set<char>)
    requires c in seps
    ensures SplitOn(x + [c] + y, seps) == SplitOn(x, seps) + SplitOn(y, seps)
  {
    if x == [] {
      assert x + [c] + y == [c] + y;
      assert ([c] + y)[1..] == y;
    } else {
      assert (x + [c] + y)[1..] == x[1..] + [c] + y;
      SplitOnConcat(x[1..], c, y, seps);
    }
  }

  /** A string without separators is a single part. */
  lemma {:induction false} SplitOnNone(s: string, seps: set<char>)
    requires forall i :: 0 <= i < |s| ==> s[i] !in seps
    ensures SplitOn(s, seps) == [s]
  {
    if s != [] {
      SplitOnNone(s[1..], seps);
      assert [s[0]] + s[1..] == s;
    }
  }

  /** Joining the parts of a one-character split restores the string. */
  lemma {:induction false} JoinSplit(s: string, c: char)
    ensures Join(SplitOn(s, {c}), [c]) == s
  {
    if s != [] {
      var rest := SplitOn(s[1..], {c});
      JoinSplit(s[1..], c);
      if s[0] == c {
        assert SplitOn(s, {c}) == [[]] + rest;
        assert ([[]] + rest)[1..] == rest;
        assert [] + [c] + s[1..] == s;
      } else {
        assert SplitOn(s, {c}) == [[s[0]] + rest[0]] + rest[1..];
        if |rest| == 1 {
          assert [s[0]] + rest[0] == s;
        } else {
          JoinCons(rest, [c]);
          assert ([[s[0]] + rest[0]] + rest[1..])[1..] == rest[1..];
        }
      }
    }
  }

  lemma JoinCons(parts: seq<string>, sep: string)
    requires |parts| >= 2
    ensures Join(parts, sep) == parts[0] + sep + Join(parts[1..], sep)
  {
  }

  /** Appending a part at the end of a join. */
  lemma {:induction false} JoinSnoc(parts: seq<string>, x: string, sep: string)
    requires |parts| > 0
    ensures Join(parts + [x], sep) == Join(parts, sep) + sep + x
  {
    if |parts| == 1 {
      assert (parts + [x])[1..] == [x];
    } else {
      assert (parts + [x])[1..] == parts[1..] + [x];
      JoinSnoc(parts[1..], x, sep);
    }
  }
}
