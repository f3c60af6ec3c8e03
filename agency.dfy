// Which funding agencies a government-interest statement names
// (`findAgency`, award_id.py:186-253). The two agency tables arrive as
// sequences of rows holding an acronym and a title; the result is the set of
// agency codes found, joined with `|` in the arbitrary order in which Python
// iterates over a set.

module Agency {
  import opened Text
  import opened Tokens
  import opened Symbols
  import opened Rewrites
  import opened Dedup
  import opened Assembly

  /** A row of an agency table: its first column (the acronym) and its
      second column (the title). */
  datatype Row = Row(acronym: string, title: string)

  /** `string.punctuation` without the hyphen, in Python's order. */
  const PunctuationOrder: string := "!\"#$%&'()*+,./:;<=>?@[\\]^_`{|}~"

  /** The same characters as a set. */
  const Blanked: set<char> := Punctuation - {'-'}

  // ---------------------------------------------------------------------------
  // wordFinder
  // ---------------------------------------------------------------------------

  /** `re.search(r"\b" + re.escape(word) + r"\b", s)` has a match at `k`. */
  predicate WordAt(word: string, s: string, k: int)
  {
    OccursAt(s, word, k) && WordBoundary(s, k) && WordBoundary(s, k + |word|)
  }

  /** `wordFinder(word, s)`. */
  predicate HasWord(word: string, s: string)
  {
    exists k :: 0 <= k <= |s| && WordAt(word, s, k)
  }

  /** A word that begins and ends with a word character is found when spaces
      set it apart, and only where it is not glued to other word characters. */
  lemma WordBetweenSpaces(a: string, word: string, b: string)
    requires |word| > 0 && IsWordChar(word[0]) && IsWordChar(word[|word| - 1])
    ensures HasWord(word, a + " " + word + " " + b)
  {
    var s := a + " " + word + " " + b;
    var k := |a| + 1;
    assert s[k..k + |word|] == word;
    assert s[k - 1] == ' ' && s[k + |word|] == ' ';
    assert WordAt(word, s, k);
  }

  /** A match found by `wordFinder` is a substring that is not part of a
      longer word on either side. */
  lemma WordIsNotGlued(word: string, s: string, k: int)
    requires |word| > 0 && IsWordChar(word[0]) && IsWordChar(word[|word| - 1])
    requires WordAt(word, s, k)
    ensures IsSubstring(word, s)
    ensures k == 0 || !IsWordChar(s[k - 1])
    ensures k + |word| == |s| || !IsWordChar(s[k + |word|])
  {
    assert s[k] == word[0];
    assert s[k + |word| - 1] == word[|word| - 1];
  }

  // ---------------------------------------------------------------------------
  // Normalising the statement and the tables (lines 200-216)
  // ---------------------------------------------------------------------------

  /** The statement with dots deleted, every other punctuation character but
      the hyphen turned into a space, and whitespace runs collapsed. */
  function NormalizedText(statement: string): string
  {
    CollapseWhitespace(ReplaceChars(RemoveChars(statement, {'.'}), Blanked, ' '))
  }

  /** Deleting a one-character pattern is a character-wise deletion. */
  lemma {:induction false} SingleCharDelete(s: string, c: char)
    ensures ReplaceAll(s, [c], "") == RemoveChars(s, {c})
  {
    if s != [] {
      SingleCharDelete(s[1..], c);
      assert s[..1] == [s[0]];
    }
  }

  /** Blanking one more character after a set of them. */
  lemma BlankOneMore(s: string, from: set<char>, c: char)
    ensures ReplaceChars(ReplaceChars(s, from, ' '), {c}, ' ') == ReplaceChars(s, from + {c}, ' ')
  {
  }

  /** The characters of a string, as a set. */
  function CharsOf(s: string): set<char>
  {
    set c | c in s
  }

  lemma CharsOfSnoc(s: string, c: char)
    ensures CharsOf(s + [c]) == CharsOf(s) + {c}
  {
  }

  lemma PunctuationOrderIsBlanked()
    ensures CharsOf(PunctuationOrder) == Blanked
  {
  }

  /** `for i in punctuation: s = s.replace(i, ' ')`: every listed character
      becomes a space. */
  method BlankPunctuation(s: string) returns (g: string)
    ensures g == ReplaceChars(s, Blanked, ' ')
  {
    g := s;
    for k := 0 to |PunctuationOrder|
      invariant g == ReplaceChars(s, CharsOf(PunctuationOrder[..k]), ' ')
    {
      var c := PunctuationOrder[k];
      SingleCharReplace(g, c, ' ');
      BlankOneMore(s, CharsOf(PunctuationOrder[..k]), c);
      assert PunctuationOrder[..k + 1] == PunctuationOrder[..k] + [c];
      CharsOfSnoc(PunctuationOrder[..k], c);
      g := ReplaceAll(g, [c], " ");
    }
    assert PunctuationOrder[..|PunctuationOrder|] == PunctuationOrder;
    PunctuationOrderIsBlanked();
  }

  /** Collapsing whitespace brings in no character but the space. */
  lemma CollapseKeepsOut(s: string, out: set<char>)
    requires ' ' !in out
    requires forall i :: 0 <= i < |s| ==> s[i] !in out
    ensures forall i :: 0 <= i < |CollapseWhitespace(s)| ==> CollapseWhitespace(s)[i] !in out
  {
    var g := CollapseWhitespace(s);
    forall i | 0 <= i < |g| ensures g[i] !in out {
      if !IsSpace(g[i]) {
        CharSurvives(g, i, Whitespace);
        var j :| 0 <= j < |RemoveChars(g, Whitespace)| && RemoveChars(g, Whitespace)[j] == g[i];
        SubsequenceMembers(RemoveChars(s, Whitespace), s, j);
      }
    }
  }

  /** The normalised statement holds no punctuation but hyphens, and no
      whitespace but single spaces. */
  lemma NormalizedShape(statement: string)
    ensures forall i :: 0 <= i < |NormalizedText(statement)| ==>
              NormalizedText(statement)[i] !in Blanked && (IsSpace(NormalizedText(statement)[i]) ==> NormalizedText(statement)[i] == ' ')
    ensures forall i :: 0 <= i < |NormalizedText(statement)| - 1 ==>
              !(NormalizedText(statement)[i] == ' ' && NormalizedText(statement)[i + 1] == ' ')
  {
    CollapseKeepsOut(ReplaceChars(RemoveChars(statement, {'.'}), Blanked, ' '), Blanked);
  }

  /** Lines 203-206: the statement rewritten step by step. */
  method Normalize(statement: string) returns (g: string)
    ensures g == NormalizedText(statement)
  {
    g := ReplaceAll(statement, ".", "");
    SingleCharDelete(statement, '.');
    g := BlankPunctuation(g);
    g := CollapseWhitespace(g);
  }

  // ---------------------------------------------------------------------------
  // The tables (lines 209-216)
  // ---------------------------------------------------------------------------

  /** Lines 209-216: the title lower-cased, then every punctuation character
      but the hyphen deleted from both columns. */
  function CleanRow(r: Row): Row
  {
    Row(RemoveChars(r.acronym, Blanked), RemoveChars(ToLower(r.title), Blanked))
  }

  function CleanTable(t: seq<Row>): seq<Row>
  {
    seq(|t|, k requires 0 <= k < |t| => CleanRow(t[k]))
  }

  /** Line 213: the rows whose acronym is `DARPA` dropped, the others kept
      in order. */
  function DropDarpa(t: seq<Row>): (r: seq<Row>)
    ensures forall x :: x in r <==> x in t && x.acronym != "DARPA"
  {
    if t == [] then []
    else if t[0].acronym == "DARPA" then DropDarpa(t[1..])
    else [t[0]] + DropDarpa(t[1..])
  }

  // ---------------------------------------------------------------------------
  // What counts as naming an agency (lines 218-253)
  // ---------------------------------------------------------------------------

  /** Lines 220-224: the acronym, alone or after `US`, in the statement, or the
      title, as written or with `department` shortened to `dept`, in the
      lower-cased statement. */
  predicate AgencyNamed(r: Row, g: string, low: string)
  {
    || HasWord(r.acronym, g)
    || HasWord("US" + r.acronym, g)
    || HasWord(r.title, low)
    || HasWord(ReplaceAll(r.title, "department", "dept"), low)
  }

  /** Lines 237-238: an NIH institute by acronym or by title. */
  predicate InstituteNamed(r: Row, g: string, low: string)
  {
    HasWord(r.acronym, g) || HasWord(r.title, low)
  }

  const ArpaName: string := "advanced research projects agency"

  /** `(advanced research projects agency|ARPA)` matches at `k`. */
  predicate ArpaAt(s: string, k: int)
  {
    OccursAt(s, ArpaName, k) || OccursAt(s, "ARPA", k)
  }

  /** Lines 243 and 247-248: `re.search(darpa, s)` finds a match. */
  predicate ArpaFound(s: string)
  {
    exists k :: 0 <= k <= |s| && ArpaAt(s, k)
  }

  /** The end of the whitespace run that starts at `j`. */
  function SpaceRun(s: string, j: nat): (e: nat)
    requires j <= |s|
    ensures j <= e <= |s| && (e == |s| || !IsSpace(s[e]))
    ensures forall m :: j <= m < e ==> IsSpace(s[m])
    decreases |s| - j
  {
    if j < |s| && IsSpace(s[j]) then SpaceRun(s, j + 1) else j
  }

  /** `(E|energy)` matches at `j`. */
  predicate EnergyAt(s: string, j: int)
  {
    OccursAt(s, "E", j) || OccursAt(s, "energy", j)
  }

  /** `(advanced research projects agency|ARPA)\s*(E|energy)` matches at `k`.
      Neither `E` nor `energy` begins with whitespace, so `\s*` can only
      succeed by taking the whole whitespace run. */
  predicate ArpaEAt(s: string, k: int)
  {
    || (OccursAt(s, ArpaName, k) && EnergyAt(s, SpaceRun(s, k + |ArpaName|)))
    || (OccursAt(s, "ARPA", k) && EnergyAt(s, SpaceRun(s, k + 4)))
  }

  /** Lines 242 and 244-245: `re.search(darpae, s)` finds a match. */
  predicate ArpaEFound(s: string)
  {
    exists k :: 0 <= k <= |s| && ArpaEAt(s, k)
  }

  /** Lines 242-246: the Advanced Research Projects Agency for Energy, looked
      for with hyphens deleted. */
  predicate DoeNamed(g: string, low: string)
  {
    ArpaEFound(RemoveChars(g, {'-'})) || ArpaEFound(RemoveChars(low, {'-'}))
  }

  /** Lines 247-249: the Advanced Research Projects Agency. */
  predicate DarpaNamed(g: string, low: string)
  {
    ArpaFound(g) || ArpaFound(low)
  }

  // ---------------------------------------------------------------------------
  // Folding NRSA into NIH (lines 240-241)
  // ---------------------------------------------------------------------------

  /** `a.replace('NRSA', 'NIH')`. */
  function FoldNrsa(c: string): string
  {
    ReplaceAll(c, "NRSA", "NIH")
  }

  /** A folded string that does not start with `N` starts as the original
      does, and folds the rest. */
  lemma FoldHead(x: string)
    requires |FoldNrsa(x)| > 0 && FoldNrsa(x)[0] != 'N'
    ensures |x| > 0 && x[0] == FoldNrsa(x)[0] && FoldNrsa(x)[1..] == FoldNrsa(x[1..])
  {
    if |x| >= 4 && x[..4] != "NRSA" {
      assert FoldNrsa(x) == [x[0]] + FoldNrsa(x[1..]);
    }
  }

  /** Folding empties no string. */
  lemma FoldNonEmpty(x: string)
    ensures |x| > 0 ==> |FoldNrsa(x)| > 0
  {
  }

  /** Folding changes no string without an `N`, and only those fold to one. */
  lemma {:induction false} FoldFixes(x: string, t: string)
    requires forall i :: 0 <= i < |t| ==> t[i] != 'N'
    requires FoldNrsa(x) == t
    ensures x == t
  {
    FoldNonEmpty(x);
    if t != [] {
      FoldHead(x);
      FoldFixes(x[1..], t[1..]);
      assert x == [x[0]] + x[1..];
    }
  }

  /** An `N` followed by a folded text that starts with `RSA` means the
      original text started with `NRSA`. */
  lemma NrsaAtStart(x: string)
    ensures |x| > 0 && x[0] == 'N' && StartsWith(FoldNrsa(x[1..]), "RSA") ==> |x| >= 4 && x[..4] == "NRSA"
  {
    if |x| > 0 && x[0] == 'N' && StartsWith(FoldNrsa(x[1..]), "RSA") {
      assert FoldNrsa(x[1..])[0] == 'R';
      FoldHead(x[1..]);
      assert FoldNrsa(x[2..])[0] == 'S' by {
        assert x[1..][1..] == x[2..];
      }
      FoldHead(x[2..]);
      assert FoldNrsa(x[3..])[0] == 'A' by {
        assert x[2..][1..] == x[3..];
      }
      FoldHead(x[3..]);
      assert x[..4] == "NRSA";
    }
  }

  /** Folding a text that starts with the pattern keeps the rest free of it. */
  lemma FoldAfterPattern(x: string)
    requires |x| >= 4 && x[..4] == "NRSA"
    requires !IsSubstring("NRSA", FoldNrsa(x[4..]))
    ensures !IsSubstring("NRSA", FoldNrsa(x))
  {
    var r := FoldNrsa(x);
    var rest := FoldNrsa(x[4..]);
    assert r == "NIH" + rest;
    forall k | 0 <= k <= |r| ensures !OccursAt(r, "NRSA", k) {
      if k >= 3 && k + 4 <= |r| {
        assert r[k..k + 4] == rest[k - 3..k + 1];
        assert !OccursAt(rest, "NRSA", k - 3);
      } else if k + 4 <= |r| {
        assert r[k..k + 4][0] == r[k] && r[k..k + 4][1] == r[k + 1];
      }
    }
  }

  /** Folding a text that does not start with the pattern keeps it out. */
  lemma FoldAfterChar(x: string)
    requires |x| >= 4 && x[..4] != "NRSA"
    requires !IsSubstring("NRSA", FoldNrsa(x[1..]))
    ensures !IsSubstring("NRSA", FoldNrsa(x))
  {
    var r := FoldNrsa(x);
    var rest := FoldNrsa(x[1..]);
    assert r == [x[0]] + rest;
    NrsaAtStart(x);
    forall k | 0 <= k <= |r| ensures !OccursAt(r, "NRSA", k) {
      if k >= 1 && k + 4 <= |r| {
        assert r[k..k + 4] == rest[k - 1..k + 3];
        assert !OccursAt(rest, "NRSA", k - 1);
      } else if k == 0 && |r| >= 4 {
        assert r[1..4] == rest[..3];
        assert r[..4] == [r[0]] + r[1..4];
      }
    }
  }

  /** The folded string never holds `NRSA`. */
  lemma {:induction false} FoldRemovesNrsa(x: string)
    ensures !IsSubstring("NRSA", FoldNrsa(x))
    decreases |x|
  {
    if |x| < 4 {
      assert FoldNrsa(x) == x;
    } else if x[..4] == "NRSA" {
      FoldRemovesNrsa(x[4..]);
      FoldAfterPattern(x);
    } else {
      FoldRemovesNrsa(x[1..]);
      FoldAfterChar(x);
    }
  }

  // ---------------------------------------------------------------------------
  // The codes reported
  // ---------------------------------------------------------------------------

  /** Lines 218-225: the acronyms of the table rows the statement names. */
  function TableCodes(rows: seq<Row>, g: string, low: string): set<string>
  {
    set r | r in rows && AgencyNamed(r, g, low) :: r.acronym
  }

  /** Lines 226-231: the armed services, by name. */
  function ServiceCodes(g: string): set<string>
  {
    (if HasWord("Army", g) then {"USA"} else {})
    + (if HasWord("Navy", g) then {"USN"} else {})
    + (if HasWord("Air Force", g) then {"USAF"} else {})
  }

  /** Lines 232-239: the NIH, by its name or by one of its institutes. */
  predicate NihNamed(g: string, low: string, institutes: seq<Row>)
  {
    HasWord("National Institute of Health", g) || exists r :: r in institutes && InstituteNamed(r, g, low)
  }

  /** Lines 218-239: the codes collected before NRSA is folded; the NIH is
      looked for only when the table did not already yield it. */
  function CodesBeforeFold(rows: seq<Row>, institutes: seq<Row>, g: string, low: string): set<string>
  {
    var found := TableCodes(rows, g, low) + ServiceCodes(g);
    if "NIH" !in found && NihNamed(g, low, institutes) then found + {"NIH"} else found
  }

  /** Lines 240-241: once NRSA is reported, every code has `NRSA` replaced by
      `NIH`. */
  function Folded(S: set<string>): set<string>
  {
    if "NRSA" in S then set c | c in S :: FoldNrsa(c) else S
  }

  /** Lines 242-253: DOE for ARPA-E, otherwise DARPA for ARPA. */
  function ArpaCodes(g: string, low: string): set<string>
  {
    if DoeNamed(g, low) then {"DOE"} else if DarpaNamed(g, low) then {"DARPA"} else {}
  }

  /** The codes collected from the cleaned tables before NRSA is folded. */
  function CodesFound(statement: string, agencies: seq<Row>, institutes: seq<Row>): set<string>
  {
    var g := NormalizedText(statement);
    CodesBeforeFold(DropDarpa(CleanTable(agencies)), CleanTable(institutes), g, ToLower(g))
  }

  /** The set of codes `findAgency` joins. */
  function AgencyCodes(statement: string, agencies: seq<Row>, institutes: seq<Row>): set<string>
  {
    var g := NormalizedText(statement);
    Folded(CodesFound(statement, agencies, institutes)) + ArpaCodes(g, ToLower(g))
  }

  // ---------------------------------------------------------------------------
  // findAgency
  // ---------------------------------------------------------------------------

  /** Lines 218-225: the loop over the agency table, appending the acronym of
      every row the statement names. */
  method MatchAgencies(rows: seq<Row>, g: string, low: string) returns (ags: seq<string>)
    ensures Elements(ags) == TableCodes(rows, g, low)
  {
    ags := [];
    for k := 0 to |rows|
      invariant Elements(ags) == TableCodes(rows[..k], g, low)
    {
      assert rows[..k + 1] == rows[..k] + [rows[k]];
      if AgencyNamed(rows[k], g, low) {
        ElementsSnoc(ags, rows[k].acronym);
        ags := ags + [rows[k].acronym];
      }
    }
    assert rows[..|rows|] == rows;
  }

  /** Lines 236-239: one `NIH` appended per institute the statement names. */
  method MatchInstitutes(ags: seq<string>, institutes: seq<Row>, g: string, low: string) returns (r: seq<string>)
    ensures Elements(r) == Elements(ags) + if exists x :: x in institutes && InstituteNamed(x, g, low) then {"NIH"} else {}
  {
    r := ags;
    for k := 0 to |institutes|
      invariant Elements(r) == Elements(ags) + if exists x :: x in institutes[..k] && InstituteNamed(x, g, low) then {"NIH"} else {}
    {
      assert institutes[..k + 1] == institutes[..k] + [institutes[k]];
      if InstituteNamed(institutes[k], g, low) {
        ElementsSnoc(r, "NIH");
        r := r + ["NIH"];
      }
    }
    assert institutes[..|institutes|] == institutes;
  }

  /** Line 241: `[a.replace('NRSA', 'NIH') for a in ags]`. */
  function FoldAll(ags: seq<string>): (r: seq<string>)
    ensures |r| == |ags|
  {
    seq(|ags|, i requires 0 <= i < |ags| => FoldNrsa(ags[i]))
  }

  /** The folded list holds exactly the folded codes. */
  lemma FoldAllElements(ags: seq<string>)
    ensures Elements(FoldAll(ags)) == set c | c in Elements(ags) :: FoldNrsa(c)
  {
    var r := FoldAll(ags);
    forall c | c in Elements(ags) ensures FoldNrsa(c) in Elements(r) {
      var i :| 0 <= i < |ags| && ags[i] == c;
      assert r[i] == FoldNrsa(c);
    }
  }

  /** Lines 226-231: a code appended for each armed service named. */
  method AddServices(ags: seq<string>, g: string) returns (r: seq<string>)
    ensures Elements(r) == Elements(ags) + ServiceCodes(g)
  {
    r := ags;
    if HasWord("Army", g) {
      ElementsSnoc(r, "USA");
      r := r + ["USA"];
    }
    if HasWord("Navy", g) {
      ElementsSnoc(r, "USN");
      r := r + ["USN"];
    }
    if HasWord("Air Force", g) {
      ElementsSnoc(r, "USAF");
      r := r + ["USAF"];
    }
  }

  /** Lines 232-239: when the NIH is not yet reported, its name or any of
      its institutes adds it. */
  method AddNih(ags: seq<string>, institutes: seq<Row>, g: string, low: string) returns (r: seq<string>)
    ensures Elements(r) == if "NIH" !in Elements(ags) && NihNamed(g, low, institutes)
                           then Elements(ags) + {"NIH"} else Elements(ags)
  {
    r := ags;
    assert ("NIH" in ags) == ("NIH" in Elements(ags));
    if "NIH" !in ags {
      if HasWord("National Institute of Health", g) {
        ElementsSnoc(r, "NIH");
        r := r + ["NIH"];
      } else {
        r := MatchInstitutes(r, institutes, g, low);
      }
    }
  }

  /** Lines 218-239: the codes collected from the table, the armed services
      and the NIH. */
  method CollectCodes(rows: seq<Row>, institutes: seq<Row>, g: string, low: string) returns (ags: seq<string>)
    ensures Elements(ags) == CodesBeforeFold(rows, institutes, g, low)
  {
    ags := MatchAgencies(rows, g, low);
    ags := AddServices(ags, g);
    ags := AddNih(ags, institutes, g, low);
  }

  /** `findAgency(gi_statement, agencies, nih_institutes)`: the codes found,
      each once, joined with `|` in some order. */
  method FindAgency(statement: string, agencies: seq<Row>, institutes: seq<Row>) returns (result: string)
    ensures exists order :: NoDuplicates(order) && Elements(order) == AgencyCodes(statement, agencies, institutes)
                            && result == Join(order, "|")
  {
    var g := Normalize(statement);
    var low := ToLower(g);
    var ags := CollectCodes(DropDarpa(CleanTable(agencies)), CleanTable(institutes), g, low);
    ghost var before := CodesFound(statement, agencies, institutes);
    assert ("NRSA" in ags) == ("NRSA" in before);
    if "NRSA" in ags {
      FoldAllElements(ags);
      ags := FoldAll(ags);
    }
    assert Elements(ags) == Folded(before);
    var g2 := ReplaceAll(g, "-", "");
    var low2 := ReplaceAll(low, "-", "");
    SingleCharDelete(g, '-');
    SingleCharDelete(low, '-');
    if ArpaEFound(g2) || ArpaEFound(low2) {
      ElementsSnoc(ags, "DOE");
      ags := ags + ["DOE"];
    } else if ArpaFound(g) || ArpaFound(low) {
      ElementsSnoc(ags, "DARPA");
      ags := ags + ["DARPA"];
    }
    assert Elements(ags) == Folded(before) + ArpaCodes(g, low);
    assert AgencyCodes(statement, agencies, institutes) == Folded(before) + ArpaCodes(g, low);
    var order := Enumerate(Elements(ags));
    result := Join(order, "|");
  }

  // ---------------------------------------------------------------------------
  // What findAgency promises
  // ---------------------------------------------------------------------------

  /** A match for ARPA-E is a match for ARPA at the same place. */
  lemma ArpaEIsArpa(s: string)
    requires ArpaEFound(s)
    ensures ArpaFound(s)
  {
    var k :| 0 <= k <= |s| && ArpaEAt(s, k);
    assert ArpaAt(s, k);
  }

  /** `ARPA-E`, once its hyphen is deleted, and `ARPA  energy` name the
      Department of Energy's agency; `ARPA` alone does not. */
  lemma ArpaEExamples()
    ensures ArpaEFound("ARPAE") && ArpaEFound("ARPA  energy")
    ensures !ArpaEFound("ARPA") && ArpaFound("ARPA")
  {
    assert SpaceRun("ARPAE", 4) == 4;
    assert ArpaEAt("ARPAE", 0);
    assert SpaceRun("ARPA  energy", 4) == 6;
    assert "ARPA  energy"[6..12] == "energy";
    assert ArpaEAt("ARPA  energy", 0);
    assert ArpaAt("ARPA", 0);
  }

  /** Folding only touches codes that hold `N`, so no code that the table
      filter or the fixed codes keep out can appear by folding. */
  lemma FoldedIsDarpa(c: string)
    ensures FoldNrsa(c) == "DARPA" ==> c == "DARPA"
  {
    if FoldNrsa(c) == "DARPA" {
      FoldFixes(c, "DARPA");
    }
  }

  /** No code is `NRSA` after folding. */
  lemma FoldedIsNotNrsa(c: string)
    ensures FoldNrsa(c) != "NRSA"
  {
    FoldRemovesNrsa(c);
    SubstringReflexive("NRSA");
  }

  /** A collected code that folding leaves alone is reported. */
  lemma FoldKeeps(S: set<string>, c: string)
    requires c in S && FoldNrsa(c) == c
    ensures c in Folded(S)
  {
  }

  /** The fixed codes fold to themselves, and `NRSA` folds to `NIH`. */
  lemma FixedCodesFold()
    ensures FoldNrsa("USA") == "USA" && FoldNrsa("USN") == "USN" && FoldNrsa("NIH") == "NIH"
    ensures FoldNrsa("USAF") == "USAF" && FoldNrsa("NRSA") == "NIH"
  {
    assert "USAF"[..4][0] == 'U';
    assert "USAF"[1..] == "SAF";
    assert "NRSA"[..4] == "NRSA";
    assert "NRSA"[4..] == "";
  }

  /** Lines 240-241: the NRSA, a programme of the NIH, is never reported; it
      is reported as the NIH. */
  lemma NrsaNeverReported(statement: string, agencies: seq<Row>, institutes: seq<Row>)
    ensures "NRSA" !in AgencyCodes(statement, agencies, institutes)
  {
    var before := CodesFound(statement, agencies, institutes);
    if "NRSA" in before {
      forall c | c in before ensures FoldNrsa(c) != "NRSA" {
        FoldedIsNotNrsa(c);
      }
    }
  }

  /** No code collected before the ARPA check is `DARPA`: the table row is
      dropped and no fixed code is `DARPA`. */
  lemma NoDarpaBefore(rows: seq<Row>, institutes: seq<Row>, g: string, low: string)
    requires forall r :: r in rows ==> r.acronym != "DARPA"
    ensures "DARPA" !in Folded(CodesBeforeFold(rows, institutes, g, low))
  {
    var before := CodesBeforeFold(rows, institutes, g, low);
    assert "DARPA" !in before;
    if "NRSA" in before {
      forall c | c in before ensures FoldNrsa(c) != "DARPA" {
        FoldedIsDarpa(c);
      }
    }
  }

  /** Lines 213 and 242-253: `DARPA` is reported exactly when the statement
      names the Advanced Research Projects Agency and not its Energy
      counterpart. */
  lemma DarpaExactly(statement: string, agencies: seq<Row>, institutes: seq<Row>)
    ensures "DARPA" in AgencyCodes(statement, agencies, institutes)
            <==> DarpaNamed(NormalizedText(statement), ToLower(NormalizedText(statement)))
                 && !DoeNamed(NormalizedText(statement), ToLower(NormalizedText(statement)))
  {
    var g := NormalizedText(statement);
    NoDarpaBefore(DropDarpa(CleanTable(agencies)), CleanTable(institutes), g, ToLower(g));
  }

  /** Lines 232-241: the NIH is reported when the statement names it or one
      of its institutes, and when the NRSA was collected. */
  lemma NihReported(statement: string, agencies: seq<Row>, institutes: seq<Row>)
    ensures NihNamed(NormalizedText(statement), ToLower(NormalizedText(statement)), CleanTable(institutes))
            ==> "NIH" in AgencyCodes(statement, agencies, institutes)
    ensures "NRSA" in CodesFound(statement, agencies, institutes) ==> "NIH" in AgencyCodes(statement, agencies, institutes)
  {
    var before := CodesFound(statement, agencies, institutes);
    FixedCodesFold();
    if "NIH" in before {
      FoldKeeps(before, "NIH");
    }
  }

  /** Lines 226-231: each armed service named is reported. */
  lemma ServicesReported(statement: string, agencies: seq<Row>, institutes: seq<Row>)
    ensures HasWord("Army", NormalizedText(statement)) ==> "USA" in AgencyCodes(statement, agencies, institutes)
    ensures HasWord("Navy", NormalizedText(statement)) ==> "USN" in AgencyCodes(statement, agencies, institutes)
    ensures HasWord("Air Force", NormalizedText(statement)) ==> "USAF" in AgencyCodes(statement, agencies, institutes)
  {
    var before := CodesFound(statement, agencies, institutes);
    assert ServiceCodes(NormalizedText(statement)) <= before;
    FixedCodesFold();
    forall c | c in {"USA", "USN", "USAF"} && c in before ensures c in Folded(before) {
      FoldKeeps(before, c);
    }
  }

  /** Lines 218-225: a named table row other than DARPA is reported by its
      cleaned acronym, folded when the NRSA was collected too. */
  lemma TableRowReported(statement: string, agencies: seq<Row>, institutes: seq<Row>, k: int)
    requires 0 <= k < |agencies|
    requires CleanRow(agencies[k]).acronym != "DARPA"
    requires AgencyNamed(CleanRow(agencies[k]), NormalizedText(statement), ToLower(NormalizedText(statement)))
    ensures CleanRow(agencies[k]).acronym in AgencyCodes(statement, agencies, institutes)
            || FoldNrsa(CleanRow(agencies[k]).acronym) in AgencyCodes(statement, agencies, institutes)
    ensures !IsSubstring("NRSA", CleanRow(agencies[k]).acronym)
            ==> CleanRow(agencies[k]).acronym in AgencyCodes(statement, agencies, institutes)
  {
    var g := NormalizedText(statement);
    var r := CleanRow(agencies[k]);
    var rows := DropDarpa(CleanTable(agencies));
    assert CleanTable(agencies)[k] == r;
    assert r in rows;
    var before := CodesFound(statement, agencies, institutes);
    assert r.acronym in TableCodes(rows, g, ToLower(g));
    assert r.acronym in before;
    if !IsSubstring("NRSA", r.acronym) {
      ReplaceAbsent(r.acronym, "NRSA", "NIH");
      FoldKeeps(before, r.acronym);
    }
  }

  /** Folding brings in no character but those of `NIH`. */
  lemma {:induction false} FoldKeepsOut(x: string, c: char)
    requires c !in "NIH"
    requires forall i :: 0 <= i < |x| ==> x[i] != c
    ensures forall i :: 0 <= i < |FoldNrsa(x)| ==> FoldNrsa(x)[i] != c
    decreases |x|
  {
    if |x| >= 4 {
      if x[..4] == "NRSA" {
        FoldKeepsOut(x[4..], c);
        assert FoldNrsa(x) == "NIH" + FoldNrsa(x[4..]);
      } else {
        FoldKeepsOut(x[1..], c);
        assert FoldNrsa(x) == [x[0]] + FoldNrsa(x[1..]);
      }
    }
  }

  /** `c` holds no `|`. */
  predicate NoBar(c: string)
  {
    forall i :: 0 <= i < |c| ==> c[i] != '|'
  }

  /** A cleaned acronym holds no `|`. */
  lemma CleanRowNoBar(r: Row)
    ensures NoBar(CleanRow(r).acronym)
  {
    assert '|' in Blanked;
  }

  /** No row of the cleaned table has `|` in its acronym. */
  lemma CleanTableNoBar(agencies: seq<Row>)
    ensures forall r :: r in DropDarpa(CleanTable(agencies)) ==> NoBar(r.acronym)
  {
    forall r | r in DropDarpa(CleanTable(agencies)) ensures NoBar(r.acronym) {
      var j :| 0 <= j < |agencies| && CleanTable(agencies)[j] == r;
      CleanRowNoBar(agencies[j]);
    }
  }

  /** The acronyms of the cleaned table hold no `|`. */
  lemma TableCodesNoBar(agencies: seq<Row>, g: string, low: string)
    ensures forall c :: c in TableCodes(DropDarpa(CleanTable(agencies)), g, low) ==> NoBar(c)
  {
    var rows := DropDarpa(CleanTable(agencies));
    CleanTableNoBar(agencies);
    forall c | c in TableCodes(rows, g, low) ensures NoBar(c) {
      var r :| r in rows && AgencyNamed(r, g, low) && r.acronym == c;
    }
  }

  /** Folding a set of codes without `|` brings none in. */
  lemma FoldedNoBar(S: set<string>)
    requires forall c :: c in S ==> NoBar(c)
    ensures forall c :: c in Folded(S) ==> NoBar(c)
  {
    forall c | c in S ensures NoBar(FoldNrsa(c)) {
      FoldKeepsOut(c, '|');
    }
  }

  /** None of the fixed codes holds `|`. */
  lemma FixedCodesNoBar()
    ensures NoBar("USA") && NoBar("USN") && NoBar("USAF") && NoBar("NIH") && NoBar("DOE") && NoBar("DARPA")
  {
  }

  /** No collected code holds `|` when no table acronym does. */
  lemma BeforeFoldNoBar(rows: seq<Row>, institutes: seq<Row>, g: string, low: string)
    requires forall c :: c in TableCodes(rows, g, low) ==> NoBar(c)
    ensures forall c :: c in CodesBeforeFold(rows, institutes, g, low) ==> NoBar(c)
  {
    FixedCodesNoBar();
  }

  /** Neither ARPA code holds `|`. */
  lemma ArpaCodesNoBar(g: string, low: string)
    ensures forall c :: c in ArpaCodes(g, low) ==> NoBar(c)
  {
    FixedCodesNoBar();
  }

  /** No reported code holds `|`, the separator of the joined result. */
  lemma CodesHaveNoBar(statement: string, agencies: seq<Row>, institutes: seq<Row>)
    ensures forall c :: c in AgencyCodes(statement, agencies, institutes) ==> NoBar(c)
  {
    var g := NormalizedText(statement);
    var found := CodesFound(statement, agencies, institutes);
    TableCodesNoBar(agencies, g, ToLower(g));
    BeforeFoldNoBar(DropDarpa(CleanTable(agencies)), CleanTable(institutes), g, ToLower(g));
    FoldedNoBar(found);
    ArpaCodesNoBar(g, ToLower(g));
    assert AgencyCodes(statement, agencies, institutes) == Folded(found) + ArpaCodes(g, ToLower(g));
  }

  /** Splitting the result of `findAgency` at `|` gives back the order in
      which the codes were joined, when there is at least one. */
  lemma ResultSplits(statement: string, agencies: seq<Row>, institutes: seq<Row>, order: seq<string>)
    requires Elements(order) == AgencyCodes(statement, agencies, institutes) && order != []
    ensures SplitOn(Join(order, "|"), {'|'}) == order
  {
    CodesHaveNoBar(statement, agencies, institutes);
    forall k | 0 <= k < |order| ensures NoBar(order[k]) {
      assert order[k] in Elements(order);
    }
    SplitJoined(order);
  }
}
