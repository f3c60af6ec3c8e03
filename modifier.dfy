/** `award_ids_modifier` (award_id.py:340-354): a list of award numbers sharing
    a two-letter prefix, `(AB1234, 5678 and 9012)`, is rewritten so that every
    number carries the prefix: ` AB+1234, AB+5678, AB+9012 `. */
module Modifier {
  import opened Text

  /** Length of the run of decimal digits starting at position `i`. */
  function DigitRun(t: string, i: nat): (n: nat)
    requires i <= |t|
    ensures i + n <= |t|
    ensures i + n == |t| || !IsDigit(t[i + n])
    decreases |t| - i
  {
    if i < |t| && IsDigit(t[i]) then 1 + DigitRun(t, i + 1) else 0
  }

  /** Every character of the run is a digit. */
  lemma {:induction false} DigitRunDigits(t: string, i: nat)
    requires i <= |t|
    ensures forall k :: i <= k < i + DigitRun(t, i) ==> IsDigit(t[k])
    decreases |t| - i
  {
    if i < |t| && IsDigit(t[i]) {
      DigitRunDigits(t, i + 1);
    }
  }

  /** A number the pattern accepts: `[0-9]{4,7}`. */
  predicate AwardNumber(n: string)
  {
    4 <= |n| <= 7 && forall k :: 0 <= k < |n| ==> IsDigit(n[k])
  }

  /** The pattern matched at the start of a text: its two-letter prefix, the
      numbers in order, and how many characters it consumed. */
  datatype ListMatch = ListMatch(prefix: string, numbers: seq<string>, length: nat)

  /** What stands at a position, for one `, [0-9]{4,7}` group. */
  datatype Group = NoGroup | BadGroup | Group(number: string)

  /** A `, ` followed by a digit must start a complete group: otherwise no way
      of matching the rest of the pattern exists. The digit run must be
      maximal, since no digit may follow a group. */
  function GroupAt(t: string, i: nat): (g: Group)
    requires i <= |t|
    ensures g.Group? ==> 4 <= |g.number| <= 7 && i + 2 + |g.number| <= |t|
  {
    if i + 3 <= |t| && t[i] == ',' && t[i + 1] == ' ' && IsDigit(t[i + 2]) then
      var d := DigitRun(t, i + 2);
      if d < 4 || d > 7 then BadGroup else Group(t[i + 2..i + 2 + d])
    else NoGroup
  }

  /** `((, [0-9]{4,7})*)` from position `i`: the numbers of the groups and the
      position where the groups end. */
  function ParseTail(t: string, i: nat): (r: Option<(seq<string>, nat)>)
    requires i <= |t|
    ensures r.Some? ==> i <= r.value.1 <= |t|
    decreases |t| - i
  {
    match GroupAt(t, i)
    case NoGroup => Some(([], i))
    case BadGroup => None
    case Group(n) =>
      match ParseTail(t, i + 2 + |n|)
      case None => None
      case Some((ns, j)) => Some(([n] + ns, j))
  }

  /** Every group the tail parser returns is an award number. */
  lemma {:induction false} ParseTailNumbers(t: string, i: nat)
    requires i <= |t|
    ensures ParseTail(t, i).Some? ==>
              forall k :: 0 <= k < |ParseTail(t, i).value.0| ==> AwardNumber(ParseTail(t, i).value.0[k])
    decreases |t| - i
  {
    match GroupAt(t, i)
    case NoGroup =>
    case BadGroup =>
    case Group(n) =>
      DigitRunDigits(t, i + 2);
      assert AwardNumber(n);
      ParseTailNumbers(t, i + 2 + |n|);
  }

  /** The five characters ` and ` stand at position `p`. */
  predicate AndAt(t: string, p: nat)
    requires p + 5 <= |t|
  {
    t[p] == ' ' && t[p + 1] == 'a' && t[p + 2] == 'n' && t[p + 3] == 'd' && t[p + 4] == ' '
  }

  /** `[\s\(]([A-Z]{2})([0-9]{4,7})((, [0-9]{4,7})*),? and ([0-9]{4,7})[\s\)]`
      tried at the start of `t`. Each digit run must be maximal and of four
      to seven digits, since a digit may not follow any of them. */
  function ParseList(t: string): (m: Option<ListMatch>)
    ensures m.Some? ==> 0 < m.value.length <= |t| && |m.value.prefix| == 2 && |m.value.numbers| >= 2
  {
    if |t| < 4 || !ListOpener(t[0]) || !IsUpper(t[1]) || !IsUpper(t[2]) then None
    else
      var d := DigitRun(t, 3);
      if d < 4 || d > 7 then None
      else
        match ParseTail(t, 3 + d)
        case None => None
        case Some((middle, p)) => ParseEnd(t, [t[3..3 + d]] + middle, p)
  }

  /** `,? and ([0-9]{4,7})[\s\)]` from position `p`, after the numbers `front`. */
  function ParseEnd(t: string, front: seq<string>, p: nat): (m: Option<ListMatch>)
    requires 3 <= p <= |t|
    ensures m.Some? ==> p < m.value.length <= |t| && |m.value.prefix| == 2 && |m.value.numbers| == |front| + 1
  {
    var p1 := if p < |t| && t[p] == ',' then p + 1 else p;
    if p1 + 5 > |t| || !AndAt(t, p1) then None
    else
      var d4 := DigitRun(t, p1 + 5);
      var q := p1 + 5 + d4;
      if d4 < 4 || d4 > 7 || q >= |t| || !ListCloser(t[q]) then None
      else Some(ListMatch(t[1..3], front + [t[p1 + 5..q]], q + 1))
  }

  /** Every number of a match is an award number. */
  lemma ParseListNumbers(t: string)
    ensures ParseList(t).Some? ==>
              forall k :: 0 <= k < |ParseList(t).value.numbers| ==> AwardNumber(ParseList(t).value.numbers[k])
  {
    if && |t| >= 4 && ListOpener(t[0]) && IsUpper(t[1]) && IsUpper(t[2])
       && 4 <= DigitRun(t, 3) <= 7 && ParseTail(t, 3 + DigitRun(t, 3)).Some?
    {
      var d := DigitRun(t, 3);
      var middle := ParseTail(t, 3 + d).value.0;
      var p := ParseTail(t, 3 + d).value.1;
      var front := [t[3..3 + d]] + middle;
      DigitRunDigits(t, 3);
      assert AwardNumber(t[3..3 + d]);
      ParseTailNumbers(t, 3 + d);
      assert forall k :: 0 <= k < |front| ==> AwardNumber(front[k]) by {
        forall k | 0 <= k < |front| ensures AwardNumber(front[k]) {
          if k > 0 { assert front[k] == middle[k - 1]; }
        }
      }
      ParseListHead(t, d, middle, p, front);
      ParseEndNumbers(t, front, p);
    }
  }

  /** The closing part adds one award number to those before it. */
  lemma ParseEndNumbers(t: string, front: seq<string>, p: nat)
    requires 3 <= p <= |t|
    requires forall k :: 0 <= k < |front| ==> AwardNumber(front[k])
    ensures ParseEnd(t, front, p).Some? ==>
              forall k :: 0 <= k < |ParseEnd(t, front, p).value.numbers| ==> AwardNumber(ParseEnd(t, front, p).value.numbers[k])
  {
    var p1 := if p < |t| && t[p] == ',' then p + 1 else p;
    if p1 + 5 <= |t| {
      DigitRunDigits(t, p1 + 5);
    }
  }

  /** Every number with the prefix attached: `f'{gis1}+{w}'`. */
  function Tagged(prefix: string, numbers: seq<string>): (items: seq<string>)
    ensures |items| == |numbers|
    ensures forall k :: 0 <= k < |numbers| ==> items[k] == prefix + "+" + numbers[k]
  {
    seq(|numbers|, k requires 0 <= k < |numbers| => prefix + "+" + numbers[k])
  }

  /** The replacement text of one match. */
  function Render(prefix: string, numbers: seq<string>): (r: string)
    ensures |r| >= 2
  {
    " " + Join(Tagged(prefix, numbers), ", ") + " "
  }

  /** `re.sub(pattern, modificationRule, s)`: scan left to right, replace each
      match and resume after it. */
  function Modify(s: string): string
    decreases |s|
  {
    if s == [] then []
    else
      match ParseList(s)
      case None => [s[0]] + Modify(s[1..])
      case Some(m) => Render(m.prefix, m.numbers) + Modify(s[m.length..])
  }

  // ---------------------------------------------------------------------------
  // Recovering the numbers
  // ---------------------------------------------------------------------------

  /** `s.split(', ')`. */
  function SplitCommaSpace(s: string): (parts: seq<string>)
    ensures |parts| > 0
    decreases |s|
  {
    if |s| < 2 then [s]
    else if s[..2] == ", " then [[]] + SplitCommaSpace(s[2..])
    else
      var rest := SplitCommaSpace(s[1..]);
      [[s[0]] + rest[0]] + rest[1..]
  }

  predicate NoComma(s: string) { forall k :: 0 <= k < |s| ==> s[k] != ',' }

  lemma {:induction false} SplitNoComma(a: string)
    requires NoComma(a)
    ensures SplitCommaSpace(a) == [a]
    decreases |a|
  {
    if |a| >= 2 {
      SplitNoComma(a[1..]);
      assert [a[0]] + a[1..] == a;
    }
  }

  lemma {:induction false} SplitAfterItem(a: string, b: string)
    requires NoComma(a)
    ensures SplitCommaSpace(a + ", " + b) == [a] + SplitCommaSpace(b)
    decreases |a|
  {
    var s := a + ", " + b;
    if a == [] {
      assert s[..2] == ", " && s[2..] == b;
    } else {
      assert s[1..] == a[1..] + ", " + b;
      SplitAfterItem(a[1..], b);
      assert [a[0]] + a[1..] == a;
    }
  }

  /** Splitting a comma-free list joined with `", "` gives the list back. */
  lemma {:induction false} SplitJoin(items: seq<string>)
    requires |items| > 0
    requires forall k :: 0 <= k < |items| ==> NoComma(items[k])
    ensures SplitCommaSpace(Join(items, ", ")) == items
  {
    if |items| == 1 {
      SplitNoComma(items[0]);
    } else {
      SplitJoin(items[1..]);
      SplitAfterItem(items[0], Join(items[1..], ", "));
    }
  }

  /** Splitting the rewritten list on `", "` and dropping the `XY+` prefix
      recovers the numbers, in order and with none lost or added. */
  lemma ModifierRoundTrip(prefix: string, numbers: seq<string>)
    requires |prefix| == 2 && NoComma(prefix) && |numbers| > 0
    requires forall k :: 0 <= k < |numbers| ==> AwardNumber(numbers[k])
    ensures var parts := SplitCommaSpace(Render(prefix, numbers)[1..|Render(prefix, numbers)| - 1]);
            |parts| == |numbers| &&
            forall k :: 0 <= k < |numbers| ==> parts[k] == prefix + "+" + numbers[k] && parts[k][3..] == numbers[k]
  {
    var items := Tagged(prefix, numbers);
    var body := Join(items, ", ");
    assert Render(prefix, numbers)[1..|Render(prefix, numbers)| - 1] == body;
    forall k | 0 <= k < |items| ensures NoComma(items[k]) {
      assert items[k] == prefix + "+" + numbers[k];
      forall p | 0 <= p < |items[k]| ensures items[k][p] != ',' {
        if p >= 3 { assert items[k][p] == numbers[k][p - 3]; }
      }
    }
    SplitJoin(items);
  }

  // ---------------------------------------------------------------------------
  // Parsing the canonical shape
  // ---------------------------------------------------------------------------

  /** `, n2, n3, ...`: the middle numbers as the text writes them. */
  function CommaList(numbers: seq<string>): string
  {
    if numbers == [] then [] else ", " + numbers[0] + CommaList(numbers[1..])
  }

  /** `[\s\(]` before a list. */
  predicate ListOpener(c: char) { IsSpace(c) || c == '(' }

  /** `[\s\)]` after a list. */
  predicate ListCloser(c: char) { IsSpace(c) || c == ')' }

  /** The optional comma `,?` before ` and `. */
  function OptComma(comma: bool): string { if comma then "," else "" }

  /** A list as the pattern accepts it: an opener, the prefix and the first
      number, `, n` for each middle number, an optional comma, ` and `, the
      last number and a closer. */
  function ListText(open: char, prefix: string, numbers: seq<string>, comma: bool, close: char): string
    requires |numbers| >= 2
  {
    [open] + prefix + numbers[0] + CommaList(numbers[1..|numbers| - 1]) + OptComma(comma)
      + " and " + numbers[|numbers| - 1] + [close]
  }

  /** `w` stands in `t` at position `i`. */
  predicate WrittenAt(t: string, i: nat, w: string)
  {
    i + |w| <= |t| && forall k {:trigger w[k]} :: 0 <= k < |w| ==> t[i + k] == w[k]
  }

  /** Each character of a written text stands at its place. */
  lemma WrittenChar(t: string, i: nat, w: string, k: nat)
    requires WrittenAt(t, i, w) && k < |w|
    ensures t[i + k] == w[k]
  {
  }

  /** A text written at `i` is its two parts written one after the other, the
      second at `j`. */
  lemma WrittenSplit(t: string, i: nat, a: string, b: string, j: nat)
    requires WrittenAt(t, i, a + b) && j == i + |a|
    ensures WrittenAt(t, i, a) && WrittenAt(t, j, b)
  {
    forall k | 0 <= k < |a| ensures t[i + k] == a[k] {
      assert (a + b)[k] == a[k];
    }
    forall k | 0 <= k < |b| ensures t[j + k] == b[k] {
      assert (a + b)[|a| + k] == b[k];
    }
  }

  /** A text starts with its first part. */
  lemma WrittenFirst(a: string, b: string)
    ensures WrittenAt(a + b, 0, a)
  {
    forall k | 0 <= k < |a| ensures (a + b)[0 + k] == a[k] {
    }
  }

  /** What is written at `i` is the slice there. */
  lemma WrittenSlice(t: string, i: nat, w: string)
    requires WrittenAt(t, i, w)
    ensures t[i..i + |w|] == w
  {
  }

  /** A run of digits written at `i`, not followed by a digit, is the run. */
  lemma {:induction false} DigitRunOf(t: string, i: nat, n: string)
    requires WrittenAt(t, i, n)
    requires forall k :: 0 <= k < |n| ==> IsDigit(n[k])
    requires i + |n| == |t| || !IsDigit(t[i + |n|])
    ensures DigitRun(t, i) == |n|
    decreases |n|
  {
    if n != [] {
      assert t[i] == n[0];
      assert WrittenAt(t, i + 1, n[1..]) by {
        forall k | 0 <= k < |n[1..]| ensures t[i + 1 + k] == n[1..][k] {
          assert t[i + (k + 1)] == n[k + 1];
        }
      }
      DigitRunOf(t, i + 1, n[1..]);
    }
  }

  /** A written group is recognised as one. */
  lemma GroupOf(t: string, i: nat, n: string)
    requires AwardNumber(n)
    requires WrittenAt(t, i, ", " + n)
    requires i + 2 + |n| == |t| || !IsDigit(t[i + 2 + |n|])
    ensures GroupAt(t, i) == Group(n)
  {
    WrittenSplit(t, i, ", ", n, i + 2);
    WrittenChar(t, i, ", ", 0);
    WrittenChar(t, i, ", ", 1);
    WrittenChar(t, i + 2, n, 0);
    DigitRunOf(t, i + 2, n);
    WrittenSlice(t, i + 2, n);
  }

  /** The first written group, in front of the others. */
  lemma CommaListUnfold(numbers: seq<string>)
    requires numbers != []
    ensures CommaList(numbers) == ", " + numbers[0] + CommaList(numbers[1..])
  {
  }

  /** Parsing the groups takes one group, then parses the rest. */
  lemma ParseTailStep(t: string, i: nat, n: string, ns: seq<string>, j: nat, numbers: seq<string>)
    requires i <= |t| && GroupAt(t, i) == Group(n)
    requires ParseTail(t, i + 2 + |n|) == Some((ns, j))
    requires numbers == [n] + ns
    ensures ParseTail(t, i) == Some((numbers, j))
  {
  }

  /** The written groups parse back to the numbers they were written from and
      end where the writing ends, provided no digit and no further group
      follows there. */
  lemma {:induction false} ParseCommaList(t: string, i: nat, numbers: seq<string>, j: nat)
    requires forall k :: 0 <= k < |numbers| ==> AwardNumber(numbers[k])
    requires WrittenAt(t, i, CommaList(numbers)) && j == i + |CommaList(numbers)|
    requires j == |t| || !IsDigit(t[j])
    requires GroupAt(t, j) == NoGroup
    ensures ParseTail(t, i) == Some((numbers, j))
    decreases |numbers|
  {
    if numbers != [] {
      var n := numbers[0];
      var ns := numbers[1..];
      CommaListUnfold(numbers);
      var i2 := i + 2 + |n|;
      WrittenSplit(t, i, ", " + n, CommaList(ns), i2);
      if ns != [] {
        CommaListUnfold(ns);
        WrittenChar(t, i2, CommaList(ns), 0);
      }
      GroupOf(t, i, n);
      ParseCommaList(t, i2, ns, j);
      assert [n] + ns == numbers;
      ParseTailStep(t, i, n, ns, j, numbers);
    }
  }

  /** Where each part of a list stands. */
  lemma PartsLayout(t: string, open: char, prefix: string, n1: string, cl: string, cm: string, last: string, close: char)
    requires |prefix| == 2
    requires WrittenAt(t, 0, [open] + prefix + n1 + cl + cm + " and " + last + [close])
    ensures var p0 := 3 + |n1| + |cl|;
            var p1 := p0 + |cm|;
            && WrittenAt(t, 0, [open])
            && WrittenAt(t, 1, prefix)
            && WrittenAt(t, 3, n1)
            && WrittenAt(t, 3 + |n1|, cl)
            && WrittenAt(t, p0, cm)
            && WrittenAt(t, p1, " and ")
            && WrittenAt(t, p1 + 5, last)
            && WrittenAt(t, p1 + 5 + |last|, [close])
  {
    var front := [open] + prefix + n1 + cl + cm;
    assert |front| == 3 + |n1| + |cl| + |cm|;
    BackLayout(t, front, last, close, |front|);
    FrontLayout(t, open, prefix, n1, cl, cm);
  }

  /** The closing parts of a list, behind its front of length `p`. */
  lemma BackLayout(t: string, front: string, last: string, close: char, p: nat)
    requires p == |front|
    requires WrittenAt(t, 0, front + " and " + last + [close])
    ensures && WrittenAt(t, 0, front)
            && WrittenAt(t, p, " and ")
            && WrittenAt(t, p + 5, last)
            && WrittenAt(t, p + 5 + |last|, [close])
  {
    WrittenSplit(t, 0, front + " and " + last, [close], p + 5 + |last|);
    WrittenSplit(t, 0, front + " and ", last, p + 5);
    WrittenSplit(t, 0, front, " and ", p);
  }

  /** The opening parts of a list. */
  lemma FrontLayout(t: string, open: char, prefix: string, n1: string, cl: string, cm: string)
    requires |prefix| == 2
    requires WrittenAt(t, 0, [open] + prefix + n1 + cl + cm)
    ensures && WrittenAt(t, 0, [open])
            && WrittenAt(t, 1, prefix)
            && WrittenAt(t, 3, n1)
            && WrittenAt(t, 3 + |n1|, cl)
            && WrittenAt(t, 3 + |n1| + |cl|, cm)
  {
    WrittenSplit(t, 0, [open] + prefix + n1 + cl, cm, 3 + |n1| + |cl|);
    WrittenSplit(t, 0, [open] + prefix + n1, cl, 3 + |n1|);
    WrittenSplit(t, 0, [open] + prefix, n1, 3);
    WrittenSplit(t, 0, [open], prefix, 1);
  }

  /** The pattern succeeds once each of its parts has matched in turn, and
      returns the pieces of text those parts matched. */
  lemma ParseListSteps(t: string, prefix: string, n1: string, middle: seq<string>, p0: nat, p1: nat, last: string)
    requires |t| >= 4 && ListOpener(t[0]) && IsUpper(t[1]) && IsUpper(t[2]) && t[1..3] == prefix
    requires 4 <= |n1| <= 7 && 3 + |n1| <= |t| && DigitRun(t, 3) == |n1| && t[3..3 + |n1|] == n1
    requires ParseTail(t, 3 + |n1|) == Some((middle, p0))
    requires p0 < |t| && p1 == (if t[p0] == ',' then p0 + 1 else p0)
    requires p1 + 5 <= |t| && AndAt(t, p1)
    requires 4 <= |last| <= 7 && p1 + 5 + |last| < |t| && DigitRun(t, p1 + 5) == |last|
    requires t[p1 + 5..p1 + 5 + |last|] == last
    requires ListCloser(t[p1 + 5 + |last|])
    ensures ParseList(t) == Some(ListMatch(prefix, [n1] + middle + [last], p1 + 5 + |last| + 1))
  {
    ParseListHead(t, |n1|, middle, p0, [n1] + middle);
    ParseEndStep(t, prefix, [n1] + middle, p0, p1, last);
  }

  /** Past its first number and the groups after it, the pattern is left with
      its closing part. */
  lemma ParseListHead(t: string, d: nat, middle: seq<string>, p: nat, front: seq<string>)
    requires |t| >= 4 && ListOpener(t[0]) && IsUpper(t[1]) && IsUpper(t[2])
    requires 4 <= d <= 7 && 3 + d <= |t| && DigitRun(t, 3) == d
    requires ParseTail(t, 3 + d) == Some((middle, p))
    requires front == [t[3..3 + d]] + middle
    ensures 3 <= p <= |t| && ParseList(t) == ParseEnd(t, front, p)
  {
  }

  /** The closing part `,? and n` and its closer match when each of their
      pieces does. */
  lemma ParseEndStep(t: string, prefix: string, front: seq<string>, p0: nat, p1: nat, last: string)
    requires 3 <= p0 < |t| && t[1..3] == prefix
    requires p1 == (if t[p0] == ',' then p0 + 1 else p0)
    requires p1 + 5 <= |t| && AndAt(t, p1)
    requires 4 <= |last| <= 7 && p1 + 5 + |last| < |t| && DigitRun(t, p1 + 5) == |last|
    requires t[p1 + 5..p1 + 5 + |last|] == last
    requires ListCloser(t[p1 + 5 + |last|])
    ensures ParseEnd(t, front, p0) == Some(ListMatch(prefix, front + [last], p1 + 5 + |last| + 1))
  {
  }

  /** The three parts of a list of at least two numbers. */
  lemma FirstMiddleLast(numbers: seq<string>)
    requires |numbers| >= 2
    ensures [numbers[0]] + numbers[1..|numbers| - 1] + [numbers[|numbers| - 1]] == numbers
  {
  }

  /** After the numbers before ` and `: the optional comma `cm` and ` and `
      end the comma groups and are skipped by the closing part. */
  lemma CommaAndFacts(t: string, p0: nat, cm: string, p1: nat)
    requires (cm == "" || cm == ",") && p1 == p0 + |cm|
    requires WrittenAt(t, p0, cm) && WrittenAt(t, p1, " and ")
    ensures p0 < |t| && p1 == (if t[p0] == ',' then p0 + 1 else p0)
    ensures p1 + 5 <= |t| && AndAt(t, p1)
    ensures (t[p0] == ',' || t[p0] == ' ') && GroupAt(t, p0) == NoGroup
  {
    AndFacts(t, p1);
    WrittenChar(t, p1, " and ", 0);
    if cm == "," {
      WrittenChar(t, p0, cm, 0);
      WrittenChar(t, p1, " and ", 1);
    }
  }

  /** The numbers of a list up to ` and `, with the optional comma `cm`
      between them, meet their steps of the pattern. */
  lemma MiddleFacts(t: string, n1: string, middle: seq<string>, p0: nat, cm: string, p1: nat)
    requires AwardNumber(n1) && forall k :: 0 <= k < |middle| ==> AwardNumber(middle[k])
    requires p0 == 3 + |n1| + |CommaList(middle)|
    requires (cm == "" || cm == ",") && p1 == p0 + |cm|
    requires WrittenAt(t, 3, n1) && WrittenAt(t, 3 + |n1|, CommaList(middle))
    requires WrittenAt(t, p0, cm) && WrittenAt(t, p1, " and ")
    ensures 3 + |n1| <= |t| && DigitRun(t, 3) == |n1|
    ensures ParseTail(t, 3 + |n1|) == Some((middle, p0))
    ensures p0 < |t| && p1 == (if t[p0] == ',' then p0 + 1 else p0)
    ensures p1 + 5 <= |t| && AndAt(t, p1)
  {
    CommaAndFacts(t, p0, cm, p1);
    assert t[3 + |n1|] == ',' || t[3 + |n1|] == ' ' by {
      if middle != [] {
        CommaListUnfold(middle);
        WrittenChar(t, 3 + |n1|, CommaList(middle), 0);
      }
    }
    RunFacts(t, 3, n1, 3 + |n1|);
    ParseCommaList(t, 3 + |n1|, middle, p0);
  }

  /** The last number of a list, and the closer after it, meet their steps of
      the pattern. */
  lemma LastFacts(t: string, p: nat, last: string, close: char)
    requires AwardNumber(last) && ListCloser(close)
    requires WrittenAt(t, p + 5, last) && WrittenAt(t, p + 5 + |last|, [close])
    ensures p + 5 + |last| < |t| && DigitRun(t, p + 5) == |last|
    ensures ListCloser(t[p + 5 + |last|])
  {
    WrittenChar(t, p + 5 + |last|, [close], 0);
    RunFacts(t, p + 5, last, p + 5 + |last|);
  }

  /** The opening of a list: an opener and two capitals. */
  lemma HeadFacts(t: string, open: char, prefix: string)
    requires ListOpener(open) && |prefix| == 2 && IsUpper(prefix[0]) && IsUpper(prefix[1])
    requires WrittenAt(t, 0, [open]) && WrittenAt(t, 1, prefix)
    ensures |t| >= 3 && ListOpener(t[0]) && IsUpper(t[1]) && IsUpper(t[2])
  {
    WrittenChar(t, 0, [open], 0);
    WrittenChar(t, 1, prefix, 0);
    WrittenChar(t, 1, prefix, 1);
  }

  /** A written number followed by a comma or a non-digit closer is a digit
      run of its length. */
  lemma RunFacts(t: string, i: nat, n: string, j: nat)
    requires AwardNumber(n) && j == i + |n|
    requires WrittenAt(t, i, n)
    requires j < |t| && (t[j] == ',' || ListCloser(t[j]))
    ensures DigitRun(t, i) == |n|
  {
    DigitRunOf(t, i, n);
  }

  /** The written word ` and `. */
  lemma AndFacts(t: string, p: nat)
    requires WrittenAt(t, p, " and ")
    ensures p + 5 <= |t| && AndAt(t, p) && t[p] != ','
  {
    WrittenChar(t, p, " and ", 0);
    WrittenChar(t, p, " and ", 1);
    WrittenChar(t, p, " and ", 2);
    WrittenChar(t, p, " and ", 3);
    WrittenChar(t, p, " and ", 4);
  }

  /** The pattern matches a text whose parts are laid out as a list, with
      the optional comma `cm` and ` and ` at position `p1`. */
  lemma ParseListParts(t: string, open: char, prefix: string, n1: string, middle: seq<string>, cm: string,
                       last: string, close: char, p0: nat, p1: nat)
    requires ListOpener(open) && ListCloser(close)
    requires |prefix| == 2 && IsUpper(prefix[0]) && IsUpper(prefix[1])
    requires AwardNumber(n1) && AwardNumber(last)
    requires forall k :: 0 <= k < |middle| ==> AwardNumber(middle[k])
    requires p0 == 3 + |n1| + |CommaList(middle)| && (cm == "" || cm == ",") && p1 == p0 + |cm|
    requires WrittenAt(t, 0, [open]) && WrittenAt(t, 1, prefix) && WrittenAt(t, 3, n1)
    requires WrittenAt(t, 3 + |n1|, CommaList(middle)) && WrittenAt(t, p0, cm) && WrittenAt(t, p1, " and ")
    requires WrittenAt(t, p1 + 5, last) && WrittenAt(t, p1 + 5 + |last|, [close])
    ensures ParseList(t) == Some(ListMatch(prefix, [n1] + middle + [last], p1 + 5 + |last| + 1))
  {
    HeadFacts(t, open, prefix);
    MiddleFacts(t, n1, middle, p0, cm, p1);
    LastFacts(t, p1, last, close);
    WrittenSlice(t, 1, prefix);
    WrittenSlice(t, 3, n1);
    WrittenSlice(t, p1 + 5, last);
    ParseListSteps(t, prefix, n1, middle, p0, p1, last);
  }

  /** The middle numbers of a list are award numbers when all its numbers are. */
  lemma MiddleNumbers(numbers: seq<string>)
    requires |numbers| >= 2
    requires forall k :: 0 <= k < |numbers| ==> AwardNumber(numbers[k])
    ensures var middle := numbers[1..|numbers| - 1];
            forall k :: 0 <= k < |middle| ==> AwardNumber(middle[k])
  {
    var middle := numbers[1..|numbers| - 1];
    forall k | 0 <= k < |middle| ensures AwardNumber(middle[k]) {
      assert middle[k] == numbers[k + 1];
    }
  }

  /** The pattern matches a text that starts with a list it accepts,
      whatever the opener, the closer and the optional comma, returning its
      prefix and all its numbers in order and consuming the whole list. */
  lemma ParseListText(t: string, open: char, prefix: string, numbers: seq<string>, comma: bool, close: char)
    requires ListOpener(open) && ListCloser(close)
    requires |prefix| == 2 && IsUpper(prefix[0]) && IsUpper(prefix[1])
    requires |numbers| >= 2
    requires forall k :: 0 <= k < |numbers| ==> AwardNumber(numbers[k])
    requires WrittenAt(t, 0, ListText(open, prefix, numbers, comma, close))
    ensures ParseList(t) == Some(ListMatch(prefix, numbers, |ListText(open, prefix, numbers, comma, close)|))
  {
    var n1 := numbers[0];
    var middle := numbers[1..|numbers| - 1];
    var last := numbers[|numbers| - 1];
    var cm := OptComma(comma);
    var p0 := 3 + |n1| + |CommaList(middle)|;
    MiddleNumbers(numbers);
    PartsLayout(t, open, prefix, n1, CommaList(middle), cm, last, close);
    ParseListParts(t, open, prefix, n1, middle, cm, last, close, p0, p0 + |cm|);
    FirstMiddleLast(numbers);
  }

  // ---------------------------------------------------------------------------
  // What a match consumed
  // ---------------------------------------------------------------------------

  /** Two texts written one after the other are their concatenation. */
  lemma WrittenJoin(t: string, i: nat, a: string, b: string)
    requires WrittenAt(t, i, a) && WrittenAt(t, i + |a|, b)
    ensures WrittenAt(t, i, a + b)
  {
    forall k | 0 <= k < |a + b| ensures t[i + k] == (a + b)[k] {
      if k < |a| {
        WrittenChar(t, i, a, k);
      } else {
        WrittenChar(t, i + |a|, b, k - |a|);
      }
    }
  }

  /** A slice of a text is written where it was taken. */
  lemma WrittenOfSlice(t: string, i: nat, j: nat)
    requires i <= j <= |t|
    ensures WrittenAt(t, i, t[i..j])
  {
    forall k | 0 <= k < j - i ensures t[i + k] == t[i..j][k] {
    }
  }

  /** The groups the tail parser returns are written, as `, n` each, from
      where it starts to where it stops. */
  lemma {:induction false} ParseTailSound(t: string, i: nat)
    requires i <= |t| && ParseTail(t, i).Some?
    ensures var r := ParseTail(t, i).value;
            WrittenAt(t, i, CommaList(r.0)) && r.1 == i + |CommaList(r.0)|
    decreases |t| - i
  {
    match GroupAt(t, i)
    case NoGroup =>
    case Group(n) =>
      var i2 := i + 2 + |n|;
      ParseTailSound(t, i2);
      var ns := ParseTail(t, i2).value.0;
      var numbers := [n] + ns;
      assert ParseTail(t, i).value == (numbers, ParseTail(t, i2).value.1);
      assert numbers[1..] == ns;
      CommaListUnfold(numbers);
      WrittenOfSlice(t, i + 2, i2);
      assert WrittenAt(t, i, ", ");
      WrittenJoin(t, i, ", ", n);
      WrittenJoin(t, i, ", " + n, CommaList(ns));
  }

  /** Parts written one after the other make up a list's text. */
  lemma PartsJoin(t: string, open: char, prefix: string, n1: string, cl: string, cm: string, last: string, close: char)
    requires |prefix| == 2
    requires var p0 := 3 + |n1| + |cl|;
             var p1 := p0 + |cm|;
             && WrittenAt(t, 0, [open])
             && WrittenAt(t, 1, prefix)
             && WrittenAt(t, 3, n1)
             && WrittenAt(t, 3 + |n1|, cl)
             && WrittenAt(t, p0, cm)
             && WrittenAt(t, p1, " and ")
             && WrittenAt(t, p1 + 5, last)
             && WrittenAt(t, p1 + 5 + |last|, [close])
    ensures WrittenAt(t, 0, [open] + prefix + n1 + cl + cm + " and " + last + [close])
  {
    WrittenJoin(t, 0, [open], prefix);
    WrittenJoin(t, 0, [open] + prefix, n1);
    WrittenJoin(t, 0, [open] + prefix + n1, cl);
    WrittenJoin(t, 0, [open] + prefix + n1 + cl, cm);
    WrittenJoin(t, 0, [open] + prefix + n1 + cl + cm, " and ");
    WrittenJoin(t, 0, [open] + prefix + n1 + cl + cm + " and ", last);
    WrittenJoin(t, 0, [open] + prefix + n1 + cl + cm + " and " + last, [close]);
  }

  /** The closing part of a match: the optional comma at `p0`, ` and ` and the
      last number, followed by the closer. */
  lemma ParseEndSound(t: string, front: seq<string>, p0: nat) returns (comma: bool, p1: nat, last: string, close: char)
    requires 3 <= p0 <= |t| && ParseEnd(t, front, p0).Some?
    ensures ListCloser(close) && p1 == p0 + |OptComma(comma)|
    ensures ParseEnd(t, front, p0) == Some(ListMatch(t[1..3], front + [last], p1 + 5 + |last| + 1))
    ensures && WrittenAt(t, p0, OptComma(comma))
            && WrittenAt(t, p1, " and ")
            && WrittenAt(t, p1 + 5, last)
            && WrittenAt(t, p1 + 5 + |last|, [close])
  {
    comma := p0 < |t| && t[p0] == ',';
    p1 := p0 + |OptComma(comma)|;
    var q := p1 + 5 + DigitRun(t, p1 + 5);
    last := t[p1 + 5..q];
    close := t[q];
    WrittenOfSlice(t, p1 + 5, q);
    assert WrittenAt(t, p0, OptComma(comma));
    assert WrittenAt(t, p1, " and ");
    assert WrittenAt(t, q, [close]);
  }

  /** Parts written one after the other, from the opener on, are the list
      of their numbers. */
  lemma ListOfParts(t: string, open: char, prefix: string, n1: string, middle: seq<string>, comma: bool,
                    last: string, close: char, numbers: seq<string>, i1: nat, p0: nat, p1: nat)
    requires |prefix| == 2 && numbers == [n1] + middle + [last]
    requires i1 == 3 + |n1| && p0 == i1 + |CommaList(middle)| && p1 == p0 + |OptComma(comma)|
    requires && WrittenAt(t, 0, [open])
             && WrittenAt(t, 1, prefix)
             && WrittenAt(t, 3, n1)
             && WrittenAt(t, i1, CommaList(middle))
             && WrittenAt(t, p0, OptComma(comma))
             && WrittenAt(t, p1, " and ")
             && WrittenAt(t, p1 + 5, last)
             && WrittenAt(t, p1 + 5 + |last|, [close])
    ensures t[..p1 + 5 + |last| + 1] == ListText(open, prefix, numbers, comma, close)
  {
    PartsJoin(t, open, prefix, n1, CommaList(middle), OptComma(comma), last, close);
    assert numbers[0] == n1 && numbers[|numbers| - 1] == last;
    assert numbers[1..|numbers| - 1] == middle;
    WrittenSlice(t, 0, ListText(open, prefix, numbers, comma, close));
  }

  /** A match passed the opening steps and is what its closing part
      returned. */
  lemma ParseListShape(t: string)
    requires ParseList(t).Some?
    ensures |t| >= 4 && ListOpener(t[0]) && 4 <= DigitRun(t, 3) <= 7
    ensures var d := DigitRun(t, 3);
            && ParseTail(t, 3 + d).Some?
            && ParseList(t) == ParseEnd(t, [t[3..3 + d]] + ParseTail(t, 3 + d).value.0, ParseTail(t, 3 + d).value.1)
  {
  }

  /** Conversely, whatever the pattern matches is a list it accepts: the
      text it consumed is the list of the prefix and numbers it returns,
      with some opener, closer and optional comma. */
  lemma ParseListSound(t: string) returns (open: char, comma: bool, close: char)
    requires ParseList(t).Some?
    ensures ListOpener(open) && ListCloser(close)
    ensures var m := ParseList(t).value;
            t[..m.length] == ListText(open, m.prefix, m.numbers, comma, close)
  {
    ParseListShape(t);
    var d := DigitRun(t, 3);
    var n1 := t[3..3 + d];
    var middle := ParseTail(t, 3 + d).value.0;
    var p0 := ParseTail(t, 3 + d).value.1;
    ParseTailSound(t, 3 + d);
    var p1, last;
    comma, p1, last, close := ParseEndSound(t, [n1] + middle, p0);
    var numbers := [n1] + middle + [last];
    assert ParseList(t) == Some(ListMatch(t[1..3], numbers, p1 + 5 + |last| + 1));
    open := t[0];
    WrittenOfSlice(t, 1, 3);
    WrittenOfSlice(t, 3, 3 + d);
    assert WrittenAt(t, 0, [open]);
    ListOfParts(t, open, t[1..3], n1, middle, comma, last, close, numbers, 3 + d, p0, p1);
  }

  /** End to end: the list, with its opener and closer, is replaced by its
      rendering and the scan resumes right after it. */
  lemma ModifyRewritesList(open: char, prefix: string, numbers: seq<string>, comma: bool, close: char, rest: string)
    requires ListOpener(open) && ListCloser(close)
    requires |prefix| == 2 && IsUpper(prefix[0]) && IsUpper(prefix[1])
    requires |numbers| >= 2
    requires forall k :: 0 <= k < |numbers| ==> AwardNumber(numbers[k])
    ensures Modify(ListText(open, prefix, numbers, comma, close) + rest) == Render(prefix, numbers) + Modify(rest)
  {
    var list := ListText(open, prefix, numbers, comma, close);
    var t := list + rest;
    WrittenFirst(list, rest);
    ParseListText(t, open, prefix, numbers, comma, close);
    assert t[|list|..] == rest;
  }

  /** Text without digits has no award list and is left as it is. */
  lemma {:induction false} ModifyNeedsDigits(s: string)
    requires forall k :: 0 <= k < |s| ==> !IsDigit(s[k])
    ensures Modify(s) == s
  {
    if s != [] {
      assert |s| >= 4 ==> DigitRun(s, 3) == 0;
      ModifyNeedsDigits(s[1..]);
    }
  }
}
