// Containment deduplication of candidate award identifiers: the in-place
// loop of the extractor (award_id.py:766-769) and `removeShorter`
// (award_id.py:263-270).

module Dedup {
  import opened Text

  // ---------------------------------------------------------------------------
  // What the deduplication is meant to keep
  // ---------------------------------------------------------------------------

  /** `w` is a substring of some other element of `S`. */
  predicate Contained(w: string, S: set<string>)
  {
    exists o :: o in S && o != w && IsSubstring(w, o)
  }

  /** `set(s)`. */
  function Elements(s: seq<string>): set<string>
  {
    set v | v in s
  }

  /** The elements of `S` that no other element of `S` contains. */
  function Maximal(S: set<string>): set<string>
  {
    set w | w in S && !Contained(w, S)
  }

  /** A bound on the lengths of the elements of a finite set. */
  ghost function MaxLength(S: set<string>): (n: nat)
    ensures forall w :: w in S ==> |w| <= n
    decreases |S|
  {
    if S == {} then 0
    else
      var x :| x in S;
      var m := MaxLength(S - {x});
      if |x| <= m then m else |x|
  }

  /** Every element of a finite set lies inside one of its maximal elements. */
  lemma {:induction false} CoveredBy(S: set<string>, w: string, bound: nat)
    requires w in S && forall x :: x in S ==> |x| <= bound
    ensures exists m :: m in Maximal(S) && IsSubstring(w, m)
    decreases bound - |w|
  {
    if Contained(w, S) {
      var o :| o in S && o != w && IsSubstring(w, o);
      SubstringLength(w, o);
      CoveredBy(S, o, bound);
      var m :| m in Maximal(S) && IsSubstring(o, m);
      SubstringTransitive(w, o, m);
    } else {
      SubstringReflexive(w);
      assert w in Maximal(S);
    }
  }

  lemma Covered(S: set<string>, w: string)
    requires w in S
    ensures exists m :: m in Maximal(S) && IsSubstring(w, m)
  {
    CoveredBy(S, w, MaxLength(S));
  }

  /** No maximal element lies inside another one. */
  lemma MaximalIsAntichain(S: set<string>, a: string, b: string)
    requires a in Maximal(S) && b in Maximal(S) && a != b
    ensures !IsSubstring(a, b)
  {
  }

  /** Whatever removals leave every maximal element in place and add
      nothing new leave the same maximal elements. */
  lemma MaximalBetween(S: set<string>, T: set<string>)
    requires Maximal(S) <= T <= S
    ensures Maximal(T) == Maximal(S)
  {
    forall w | w in Maximal(T) ensures w in Maximal(S) {
      if Contained(w, S) {
        var o :| o in S && o != w && IsSubstring(w, o);
        Covered(S, o);
        var m :| m in Maximal(S) && IsSubstring(o, m);
        SubstringTransitive(w, o, m);
        if m == w {
          SubstringLength(w, o);
          SubstringLength(o, w);
        }
      }
    }
  }

  // ---------------------------------------------------------------------------
  // Sorting (`list.sort`, `sorted`)
  // ---------------------------------------------------------------------------

  /** `le` orders every pair and is transitive, as `key=len` and string
      comparison are. */
  ghost predicate TotalPreorder(le: (string, string) -> bool)
  {
    && (forall a, b :: le(a, b) || le(b, a))
    && (forall a, b, c :: le(a, b) && le(b, c) ==> le(a, c))
  }

  predicate SortedBy(s: seq<string>, le: (string, string) -> bool)
  {
    forall i, j :: 0 <= i < j < |s| ==> le(s[i], s[j])
  }

  /** `x` placed after every element of `s` that does not exceed it, so the
      sort is stable. */
  function Insert(x: string, s: seq<string>, le: (string, string) -> bool): (r: seq<string>)
    ensures multiset(r) == multiset(s) + multiset{x}
  {
    if s == [] then [x]
    else if le(s[0], x) then
      assert s == [s[0]] + s[1..];
      [s[0]] + Insert(x, s[1..], le)
    else [x] + s
  }

  lemma {:induction false} InsertSorted(x: string, s: seq<string>, le: (string, string) -> bool)
    requires TotalPreorder(le) && SortedBy(s, le)
    ensures SortedBy(Insert(x, s, le), le)
  {
    if s != [] && le(s[0], x) {
      var rest := Insert(x, s[1..], le);
      InsertSorted(x, s[1..], le);
      assert s == [s[0]] + s[1..];
      forall k | 0 <= k < |rest| ensures le(s[0], rest[k]) {
        assert rest[k] in multiset(rest);
        if rest[k] != x {
          assert rest[k] in s[1..];
        }
      }
    }
  }

  /** A stable sort: the order `list.sort` and `sorted` produce. */
  function SortBy(s: seq<string>, le: (string, string) -> bool): (r: seq<string>)
    ensures multiset(r) == multiset(s)
  {
    if s == [] then []
    else
      assert s == s[..|s| - 1] + [s[|s| - 1]];
      Insert(s[|s| - 1], SortBy(s[..|s| - 1], le), le)
  }

  lemma {:induction false} SortBySorted(s: seq<string>, le: (string, string) -> bool)
    requires TotalPreorder(le)
    ensures SortedBy(SortBy(s, le), le)
  {
    if s != [] {
      SortBySorted(s[..|s| - 1], le);
      InsertSorted(s[|s| - 1], SortBy(s[..|s| - 1], le), le);
    }
  }

  /** `key=len`. */
  predicate ByLength(a: string, b: string) { |a| <= |b| }

  /** Python's comparison of strings: code point by code point, a proper
      prefix first. */
  predicate LexLe(a: string, b: string)
  {
    |a| == 0 || (|b| > 0 && (a[0] < b[0] || (a[0] == b[0] && LexLe(a[1..], b[1..]))))
  }

  lemma {:induction false} LexTotal(a: string, b: string)
    ensures LexLe(a, b) || LexLe(b, a)
  {
    if |a| > 0 && |b| > 0 && a[0] == b[0] {
      LexTotal(a[1..], b[1..]);
    }
  }

  lemma LexReflexive(a: string)
    ensures LexLe(a, a)
  {
    LexTotal(a, a);
  }

  lemma {:induction false} LexTransitive(a: string, b: string, c: string)
    requires LexLe(a, b) && LexLe(b, c)
    ensures LexLe(a, c)
  {
    if |a| > 0 && a[0] == b[0] && b[0] == c[0] {
      LexTransitive(a[1..], b[1..], c[1..]);
    }
  }

  lemma {:induction false} LexAntisymmetric(a: string, b: string)
    requires LexLe(a, b) && LexLe(b, a)
    ensures a == b
  {
    if |a| > 0 {
      LexAntisymmetric(a[1..], b[1..]);
      assert a == [a[0]] + a[1..] && b == [b[0]] + b[1..];
    }
  }

  lemma LengthOrder()
    ensures TotalPreorder(ByLength)
  {
  }

  lemma LexOrder()
    ensures TotalPreorder(LexLe)
  {
    forall a, b ensures LexLe(a, b) || LexLe(b, a) {
      LexTotal(a, b);
    }
    forall a, b, c | LexLe(a, b) && LexLe(b, c) ensures LexLe(a, c) {
      LexTransitive(a, b, c);
    }
  }

  // ---------------------------------------------------------------------------
  // Distinct elements and strictly increasing sequences
  // ---------------------------------------------------------------------------

  predicate NoDuplicates(s: seq<string>)
  {
    forall i, j :: 0 <= i < j < |s| ==> s[i] != s[j]
  }

  /** Strictly increasing in Python's string order. */
  predicate Increasing(s: seq<string>)
  {
    forall i, j :: 0 <= i < j < |s| ==> LexLe(s[i], s[j]) && s[i] != s[j]
  }

  lemma {:induction false} NoDuplicatesCount(s: seq<string>, v: string)
    requires NoDuplicates(s)
    ensures multiset(s)[v] <= 1
  {
    if s != [] {
      assert s == [s[0]] + s[1..];
      assert s[0] !in s[1..];
      NoDuplicatesCount(s[1..], v);
    }
  }

  lemma TwiceCounted(s: seq<string>, i: nat, j: nat)
    requires i < j < |s| && s[i] == s[j]
    ensures multiset(s)[s[i]] >= 2
  {
    assert s == s[..j] + [s[j]] + s[j + 1..];
    assert s[i] in s[..j];
  }

  /** A permutation of a sequence without duplicates has none either. */
  lemma PermutationNoDuplicates(a: seq<string>, b: seq<string>)
    requires NoDuplicates(a) && multiset(a) == multiset(b)
    ensures NoDuplicates(b)
  {
    forall i, j | 0 <= i < j < |b| ensures b[i] != b[j] {
      if b[i] == b[j] {
        TwiceCounted(b, i, j);
        NoDuplicatesCount(a, b[i]);
        assert false;
      }
    }
  }

  /** Sorting a sequence without duplicates in string order makes it strictly
      increasing. */
  lemma SortedDistinct(s: seq<string>)
    requires NoDuplicates(s)
    ensures Increasing(SortBy(s, LexLe))
  {
    LexOrder();
    SortBySorted(s, LexLe);
    PermutationNoDuplicates(s, SortBy(s, LexLe));
  }

  /** At most one strictly increasing sequence has a given set of elements:
      the result does not depend on the order its input came in. */
  lemma {:induction false} IncreasingUnique(a: seq<string>, b: seq<string>)
    requires Increasing(a) && Increasing(b) && Elements(a) == Elements(b)
    ensures a == b
  {
    if a != [] {
      assert a[0] in Elements(a) && b[0] in Elements(b);
      var i :| 0 <= i < |b| && b[i] == a[0];
      var j :| 0 <= j < |a| && a[j] == b[0];
      LexReflexive(a[0]);
      assert LexLe(b[0], a[0]) by { if i > 0 { assert LexLe(b[0], b[i]); } }
      assert LexLe(a[0], b[0]) by { if j > 0 { assert LexLe(a[0], a[j]); } }
      LexAntisymmetric(a[0], b[0]);
      TailIncluded(a, b);
      TailIncluded(b, a);
      IncreasingUnique(a[1..], b[1..]);
      assert a == [a[0]] + a[1..] && b == [b[0]] + b[1..];
    } else {
      ElementsEmpty(b);
    }
  }

  /** Past a common least element, the elements of one strictly increasing
      sequence are among those of another. */
  lemma TailIncluded(a: seq<string>, b: seq<string>)
    requires a != [] && b != [] && a[0] == b[0]
    requires Increasing(a) && Elements(a) <= Elements(b)
    ensures Elements(a[1..]) <= Elements(b[1..])
  {
    forall x | x in a[1..] ensures x in b[1..] {
      var k :| 1 <= k < |a| && a[k] == x;
      assert x in Elements(b);
      var l :| 0 <= l < |b| && b[l] == x;
    }
  }

  // ---------------------------------------------------------------------------
  // `list.remove`
  // ---------------------------------------------------------------------------

  lemma ElementsEmpty(s: seq<string>)
    ensures Elements(s) == {} <==> s == []
  {
    if s != [] {
      assert s[0] in Elements(s);
    }
  }

  /** `s.index(w)`. */
  function IndexOf(s: seq<string>, w: string): (k: nat)
    requires w in s
    ensures k < |s| && s[k] == w
    ensures forall j :: 0 <= j < k ==> s[j] != w
  {
    if s[0] == w then 0 else 1 + IndexOf(s[1..], w)
  }

  /** `s.remove(w)`: deletes the first occurrence of `w`. Python raises an
      error when `w` is absent; here that is excluded by the precondition,
      which every call below discharges. */
  function RemoveFirst(s: seq<string>, w: string): (r: seq<string>)
    requires w in s
    ensures multiset(r) == multiset(s) - multiset{w}
    ensures exists k :: 0 <= k < |s| && s[k] == w && w !in s[..k] && r == s[..k] + s[k + 1..]
  {
    var k := IndexOf(s, w);
    assert s == s[..k] + [w] + s[k + 1..];
    assert w !in s[..k];
    s[..k] + s[k + 1..]
  }

  lemma RemoveFirstMembers(s: seq<string>, w: string, v: string)
    requires w in s
    ensures v in RemoveFirst(s, w) ==> v in s
    ensures v in s && v != w ==> v in RemoveFirst(s, w)
  {
    assert v in RemoveFirst(s, w) <==> v in multiset(RemoveFirst(s, w));
  }

  /** Removing `w` where it first stands, at position `n`, closes the gap. */
  lemma RemoveAt(front: seq<string>, w: string, rest: seq<string>)
    requires w !in front
    ensures RemoveFirst(front + [w] + rest, w) == front + rest
  {
    var s := front + [w] + rest;
    var k := IndexOf(s, w);
    assert s[..|front|] == front && s[|front|] == w;
    assert s[|front| + 1..] == rest;
  }

  // ---------------------------------------------------------------------------
  // removeShorter (award_id.py:263-270)
  // ---------------------------------------------------------------------------

  /** `any(w in o for o in s[i+1:])` with `w == s[k]`'s value: some element
      after position `i` contains `w`. */
  predicate ContainedAfter(w: string, s: seq<string>, i: nat)
  {
    exists j :: i < j < |s| && IsSubstring(w, s[j])
  }

  /** The elements among the first `i` of `c` that nothing after them
      contains, in order. */
  function Kept(c: seq<string>, i: nat): (k: seq<string>)
    requires i <= |c|
    ensures |k| <= i
    ensures forall v :: v in k ==> v in c[..i]
  {
    if i == 0 then []
    else if ContainedAfter(c[i - 1], c, i - 1) then Kept(c, i - 1)
    else Kept(c, i - 1) + [c[i - 1]]
  }

  /** An element of the first `i` is kept only if no later element contains
      it; in particular no later equal element exists. */
  lemma {:induction false} KeptUncontained(c: seq<string>, i: nat, v: string)
    requires i <= |c| && v in Kept(c, i)
    ensures exists k :: 0 <= k < i && c[k] == v && !ContainedAfter(v, c, k)
  {
    if i > 0 {
      if v in Kept(c, i - 1) {
        KeptUncontained(c, i - 1, v);
      }
    }
  }

  /** The element at `i` is never among those kept before it. */
  lemma KeptExcludesNext(c: seq<string>, i: nat)
    requires i < |c|
    ensures c[i] !in Kept(c, i)
  {
    if c[i] in Kept(c, i) {
      KeptUncontained(c, i, c[i]);
      var k :| 0 <= k < i && c[k] == c[i] && !ContainedAfter(c[i], c, k);
      SubstringReflexive(c[i]);
      assert false;
    }
  }

  lemma {:induction false} KeptNoDuplicates(c: seq<string>, i: nat)
    requires i <= |c|
    ensures NoDuplicates(Kept(c, i))
  {
    if i > 0 {
      KeptNoDuplicates(c, i - 1);
      KeptExcludesNext(c, i - 1);
    }
  }

  /** On a sequence sorted by length, the kept elements are exactly the
      maximal ones. */
  lemma KeptIsMaximal(c: seq<string>)
    requires SortedBy(c, ByLength)
    ensures Elements(Kept(c, |c|)) == Maximal(Elements(c))
  {
    forall v | v in Kept(c, |c|) ensures v in Maximal(Elements(c)) {
      KeptIsUncontained(c, v);
    }
    forall v | v in Maximal(Elements(c)) ensures v in Kept(c, |c|) {
      var k := LastIndex(c, v);
      KeptAt(c, k);
    }
  }

  /** A kept element lies inside no other element: the elements after it do
      not contain it, and those before it are no longer than it. */
  lemma KeptIsUncontained(c: seq<string>, v: string)
    requires SortedBy(c, ByLength) && v in Kept(c, |c|)
    ensures !Contained(v, Elements(c))
  {
    KeptUncontained(c, |c|, v);
    var k :| 0 <= k < |c| && c[k] == v && !ContainedAfter(v, c, k);
    forall o | o in Elements(c) && o != v ensures !IsSubstring(v, o) {
      var j :| 0 <= j < |c| && c[j] == o;
      if IsSubstring(v, o) {
        SubstringLength(v, o);
      }
    }
  }

  /** The position of the last occurrence of `v`. */
  function LastIndex(c: seq<string>, v: string): (k: nat)
    requires v in c
    ensures k < |c| && c[k] == v && v !in c[k + 1..]
  {
    if c[|c| - 1] == v then |c| - 1
    else
      var k := LastIndex(c[..|c| - 1], v);
      assert c[k + 1..] == c[..|c| - 1][k + 1..] + [c[|c| - 1]];
      k
  }

  /** The last occurrence of a maximal element is kept. */
  lemma KeptAt(c: seq<string>, k: nat)
    requires k < |c| && c[k] in Maximal(Elements(c)) && c[k] !in c[k + 1..]
    ensures c[k] in Kept(c, |c|)
  {
    assert !ContainedAfter(c[k], c, k) by {
      forall j | k < j < |c| ensures !IsSubstring(c[k], c[j]) {
        assert c[j] in c[k + 1..];
        assert c[j] in Elements(c);
      }
    }
    assert c[k] in Kept(c, k + 1);
    KeptGrows(c, k + 1, |c|);
  }

  lemma {:induction false} KeptGrows(c: seq<string>, i: nat, j: nat)
    requires i <= j <= |c|
    ensures forall v :: v in Kept(c, i) ==> v in Kept(c, j)
    decreases j - i
  {
    if i < j {
      KeptGrows(c, i + 1, j);
    }
  }

  /** A contained element is removed where it first stands: at the front of
      the part not yet examined. */
  lemma DropStep(c: seq<string>, i: nat, ids: seq<string>)
    requires i < |c| && ids == Kept(c, i) + c[i..] && ContainedAfter(c[i], c, i)
    ensures c[i] in ids && RemoveFirst(ids, c[i]) == Kept(c, i + 1) + c[i + 1..]
  {
    var front := Kept(c, i);
    assert Kept(c, i + 1) == front;
    KeptExcludesNext(c, i);
    assert c[i..] == [c[i]] + c[i + 1..];
    assert ids == front + [c[i]] + c[i + 1..];
    RemoveAt(front, c[i], c[i + 1..]);
  }

  lemma KeepStep(c: seq<string>, i: nat, ids: seq<string>)
    requires i < |c| && ids == Kept(c, i) + c[i..] && !ContainedAfter(c[i], c, i)
    ensures ids == Kept(c, i + 1) + c[i + 1..]
  {
    assert c[i..] == [c[i]] + c[i + 1..];
  }

  /** The loop of `removeShorter` stops before the last element, which nothing
      after it contains, so that element is kept. */
  lemma KeptLast(c: seq<string>, i: nat, ids: seq<string>)
    requires i <= |c| && (|c| > 0 ==> i < |c|) && i + 1 >= |c|
    requires ids == Kept(c, i) + c[i..]
    ensures ids == Kept(c, |c|)
  {
    if |c| > 0 {
      assert !ContainedAfter(c[i], c, i);
    }
  }

  /** Permutations have the same elements. */
  lemma SameElements(a: seq<string>, b: seq<string>)
    requires multiset(a) == multiset(b)
    ensures Elements(a) == Elements(b)
  {
    assert forall v :: v in a <==> v in multiset(a);
    assert forall v :: v in b <==> v in multiset(b);
  }

  /** Applied to the input sorted by length, the loop keeps each maximal
      candidate exactly once. */
  lemma KeptOfSorted(awardIds: seq<string>, c: seq<string>)
    requires multiset(c) == multiset(awardIds) && SortedBy(c, ByLength)
    ensures NoDuplicates(Kept(c, |c|))
    ensures Elements(Kept(c, |c|)) == Maximal(Elements(awardIds))
  {
    KeptNoDuplicates(c, |c|);
    KeptIsMaximal(c);
    SameElements(c, awardIds);
  }

  /** `removeShorter`: sort by length; drop every element that a later one
      contains (taken from an unchanged copy, and never the last one); sort
      the survivors. The survivors are the maximal candidates, once each and
      in string order. */
  method RemoveShorter(awardIds: seq<string>) returns (r: seq<string>)
    ensures Increasing(r)
    ensures Elements(r) == Maximal(Elements(awardIds))
  {
    LengthOrder();
    var ids := SortBy(awardIds, ByLength);
    var copy := ids;
    var i := 0;
    while i + 1 < |copy|
      invariant i <= |copy| && (|copy| > 0 ==> i < |copy|)
      invariant ids == Kept(copy, i) + copy[i..]
    {
      var w := copy[i];
      if ContainedAfter(w, copy, i) {
        DropStep(copy, i, ids);
        ids := RemoveFirst(ids, w);
      } else {
        KeepStep(copy, i, ids);
      }
      i := i + 1;
    }
    KeptLast(copy, i, ids);
    SortBySorted(awardIds, ByLength);
    KeptOfSorted(awardIds, copy);
    SortedDistinct(ids);
    r := SortBy(ids, LexLe);
    SameElements(ids, r);
  }

  // ---------------------------------------------------------------------------
  // The extractor's own pass (award_id.py:766-769)
  // ---------------------------------------------------------------------------

  /** Removing the first occurrence of the element at `n` leaves what stood
      after `n` one place to the left. */
  lemma RemoveShifts(s: seq<string>, n: nat)
    requires n < |s|
    ensures RemoveFirst(s, s[n])[n..] == s[n + 1..]
    ensures forall j :: n < j < |s| ==> RemoveFirst(s, s[n])[j - 1] == s[j]
  {
    var k := IndexOf(s, s[n]);
    assert k <= n;
  }

  /** A maximal element survives its removal: what contains it after
      position `i` can only be another copy of it. */
  lemma MaximalSurvives(copy: seq<string>, s: seq<string>, n: nat, i: nat)
    requires n <= i && n < |s| && ContainedAfter(s[n], s, i)
    requires Elements(s) <= Elements(copy) && s[n] in Maximal(Elements(copy))
    ensures s[n] in RemoveFirst(s, s[n])
  {
    var j :| i < j < |s| && IsSubstring(s[n], s[j]);
    assert s[j] in Elements(s);
    RemoveShifts(s, n);
    assert RemoveFirst(s, s[n])[j - 1] == s[j];
  }

  /** One removal keeps the loop's invariants. */
  lemma DropStepShifted(copy: seq<string>, s: seq<string>, n: nat, i: nat)
    requires i < |copy| && n <= i && n + (|copy| - i) == |s| && s[n..] == copy[i..]
    requires Elements(s) <= Elements(copy) && Maximal(Elements(copy)) <= Elements(s)
    requires ContainedAfter(copy[i], s, i)
    ensures copy[i] in s
    ensures var s' := RemoveFirst(s, copy[i]);
            && n + (|copy| - (i + 1)) == |s'| && s'[n..] == copy[i + 1..]
            && Elements(s') <= Elements(copy) && Maximal(Elements(copy)) <= Elements(s')
  {
    var w := copy[i];
    assert s[n] == w;
    RemoveShifts(s, n);
    var s' := RemoveFirst(s, w);
    forall v | v in Elements(s') ensures v in Elements(copy) {
      RemoveFirstMembers(s, w, v);
    }
    forall v | v in Maximal(Elements(copy)) ensures v in Elements(s') {
      RemoveFirstMembers(s, w, v);
      if v == w {
        MaximalSurvives(copy, s, n, i);
      }
    }
  }

  /** The extractor's pass: sort by length, then, for each candidate of an
      unchanged copy, remove it when a candidate after position `i` of the
      list being shrunk contains it. Because removals shift that list, the
      pass can miss candidates that a later one contains; it never removes
      a maximal candidate, never raises on `remove`, and adds nothing. */
  method DropContained(candidates: seq<string>) returns (s: seq<string>)
    ensures Maximal(Elements(candidates)) <= Elements(s) <= Elements(candidates)
  {
    s := SortBy(candidates, ByLength);
    var copy := s;
    ghost var n := 0;
    for i := 0 to |copy|
      invariant n <= i && n + (|copy| - i) == |s| && s[n..] == copy[i..]
      invariant Elements(s) <= Elements(copy) && Maximal(Elements(copy)) <= Elements(s)
    {
      var w := copy[i];
      if ContainedAfter(w, s, i) {
        DropStepShifted(copy, s, n, i);
        s := RemoveFirst(s, w);
      } else {
        n := n + 1;
      }
    }
    SameElements(candidates, copy);
  }
}
