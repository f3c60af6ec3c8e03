// The last stage of the award-identifier extractor (award_id.py:732-775):
// every occurrence of every flagged token is a seed for merging with its
// neighbours; the merged strings and the flagged tokens become candidates,
// which are stripped of stop characters, filtered, deduplicated by
// containment and joined with `|`.

module Assembly {
  import opened Text
  import opened Tokens
  import opened Merger
  import opened Dedup

  // ---------------------------------------------------------------------------
  // Iterating over a set
  // ---------------------------------------------------------------------------

  /** `for x in S`: every element once, in an order that depends on string
      hashing and is left open here. */
  method Enumerate(S: set<string>) returns (s: seq<string>)
    ensures NoDuplicates(s) && Elements(s) == S
  {
    s := [];
    var rest := S;
    while rest != {}
      invariant NoDuplicates(s) && Elements(s) + rest == S && Elements(s) !! rest
      decreases |rest|
    {
      var x :| x in rest;
      s := s + [x];
      rest := rest - {x};
    }
  }

  // ---------------------------------------------------------------------------
  // Seeds (award_id.py:732-734)
  // ---------------------------------------------------------------------------

  /** `[idx for idx, elm in enumerate(tokens) if elm == ws]`. */
  function Occurrences(tokens: seq<string>, ws: string): (r: seq<nat>)
    ensures forall k :: 0 <= k < |r| ==> r[k] < |tokens|
    ensures forall j: nat :: j in r <==> j < |tokens| && tokens[j] == ws
    decreases |tokens|
  {
    if tokens == [] then []
    else
      var last := |tokens| - 1;
      var front := Occurrences(tokens[..last], ws);
      if tokens[last] == ws then front + [last] else front
  }

  /** The positions of the flagged tokens. */
  function Seeds(tokens: seq<string>, flagged: seq<string>): set<nat>
  {
    set j: nat | j < |tokens| && tokens[j] in flagged
  }

  /** `for ws in set(s): idxs.extend(...)`: every position of every flagged
      token, whatever order the set is iterated in. */
  method CollectSeeds(tokens: seq<string>, flagged: seq<string>) returns (idxs: seq<nat>)
    ensures forall k :: 0 <= k < |idxs| ==> idxs[k] < |tokens|
    ensures forall j: nat :: j in idxs <==> j in Seeds(tokens, flagged)
  {
    var order := Enumerate(Elements(flagged));
    idxs := [];
    for i := 0 to |order|
      invariant forall k :: 0 <= k < |idxs| ==> idxs[k] < |tokens|
      invariant forall j: nat :: j in idxs <==> j < |tokens| && tokens[j] in order[..i]
    {
      idxs := idxs + Occurrences(tokens, order[i]);
      assert order[..i + 1] == order[..i] + [order[i]];
    }
    assert order[..|order|] == order;
    assert forall w :: w in order <==> w in flagged by {
      assert forall w :: w in order <==> w in Elements(order);
      assert forall w :: w in flagged <==> w in Elements(flagged);
    }
  }

  // ---------------------------------------------------------------------------
  // Merging (award_id.py:735-753)
  // ---------------------------------------------------------------------------

  /** The merger's result at every token position, in one direction. */
  function Walks(tokens: seq<string>, flagged: seq<string>, acronyms: set<string>, words: set<string>,
                 forward: bool): seq<Merge>
  {
    seq(|tokens|, j requires 0 <= j < |tokens| => AddIsolated(tokens, j, Elements(flagged), acronyms, words, forward))
  }

  /** The entries of `ws` at the positions `idxs`, in order. */
  function Picked(ws: seq<Merge>, idxs: seq<nat>): (ms: seq<Merge>)
    requires forall k :: 0 <= k < |idxs| ==> idxs[k] < |ws|
    ensures |ms| == |idxs|
  {
    seq(|idxs|, k requires 0 <= k < |idxs| => ws[idxs[k]])
  }

  /** Picking one more position appends its entry. */
  lemma PickedSnoc(ws: seq<Merge>, idxs: seq<nat>, i: nat)
    requires forall k :: 0 <= k < |idxs| ==> idxs[k] < |ws|
    requires i < |idxs|
    ensures Picked(ws, idxs[..i + 1]) == Picked(ws, idxs[..i]) + [ws[idxs[i]]]
  {
  }

  /** The results of the merger's calls, one per seed. */
  function Calls(tokens: seq<string>, flagged: seq<string>, acronyms: set<string>, words: set<string>,
                 idxs: seq<nat>, forward: bool): (ms: seq<Merge>)
    requires forall k :: 0 <= k < |idxs| ==> idxs[k] < |tokens|
    ensures |ms| == |idxs|
  {
    Picked(Walks(tokens, flagged, acronyms, words, forward), idxs)
  }

  /** The result at position `k` is the call on the `k`-th seed. */
  lemma CallsAt(tokens: seq<string>, flagged: seq<string>, acronyms: set<string>, words: set<string>,
                idxs: seq<nat>, forward: bool, k: nat)
    requires forall k :: 0 <= k < |idxs| ==> idxs[k] < |tokens|
    requires k < |idxs|
    ensures Calls(tokens, flagged, acronyms, words, idxs, forward)[k]
            == AddIsolated(tokens, idxs[k], Elements(flagged), acronyms, words, forward)
  {
  }

  /** The strings of a sequence of results, call after call. */
  function Flatten(ms: seq<Merge>): seq<string>
  {
    if ms == [] then [] else Flatten(ms[..|ms| - 1]) + Items(ms[|ms| - 1])
  }

  /** One more call appends its strings. */
  lemma FlattenAppend(ms: seq<Merge>, m: Merge)
    ensures Flatten(ms + [m]) == Flatten(ms) + Items(m)
  {
    assert (ms + [m])[..|ms|] == ms;
  }

  /** Every string added comes from some call. */
  lemma {:induction false} FlattenHas(ms: seq<Merge>, x: string) returns (k: nat)
    requires x in Flatten(ms)
    ensures k < |ms| && x in Items(ms[k])
  {
    var last := |ms| - 1;
    var front := ms[..last];
    assert Flatten(ms) == Flatten(front) + Items(ms[last]);
    if x in Flatten(front) {
      k := FlattenHas(front, x);
      assert front[k] == ms[k];
    } else {
      k := last;
    }
  }

  /** Every string a call returns is added. */
  lemma {:induction false} FlattenGets(ms: seq<Merge>, k: nat, x: string)
    requires k < |ms| && x in Items(ms[k])
    ensures x in Flatten(ms)
  {
    var last := |ms| - 1;
    var front := ms[..last];
    assert Flatten(ms) == Flatten(front) + Items(ms[last]);
    if k < last {
      assert front[k] == ms[k];
      FlattenGets(front, k, x);
    } else {
      assert x in Items(ms[last]);
    }
  }

  /** A string is added exactly when one of the calls returns it. */
  lemma FlattenMembers(ms: seq<Merge>, x: string)
    ensures x in Flatten(ms) <==> exists k :: 0 <= k < |ms| && x in Items(ms[k])
  {
    if x in Flatten(ms) {
      var k := FlattenHas(ms, x);
    }
    if exists k :: 0 <= k < |ms| && x in Items(ms[k]) {
      var k :| 0 <= k < |ms| && x in Items(ms[k]);
      FlattenGets(ms, k, x);
    }
  }

  /** `for idx in idxs: w = addIsolated(...); s_add.append(...)` in one
      direction: a bare string is appended as it is, a list item by item. */
  method MergeAll(tokens: seq<string>, flagged: seq<string>, acronyms: set<string>, words: set<string>,
                  idxs: seq<nat>, forward: bool) returns (added: seq<string>)
    requires forall k :: 0 <= k < |idxs| ==> idxs[k] < |tokens|
    ensures added == Flatten(Calls(tokens, flagged, acronyms, words, idxs, forward))
  {
    added := [];
    ghost var walks := Walks(tokens, flagged, acronyms, words, forward);
    for i := 0 to |idxs|
      invariant added == Flatten(Picked(walks, idxs[..i]))
    {
      var w := AddIsolated(tokens, idxs[i], Elements(flagged), acronyms, words, forward);
      match w {
        case Unmerged(seed) => added := added + [seed];
        case Joined(first) => added := added + [first];
        case FannedOut(first, second) => added := added + [first] + [second];
      }
      PickedSnoc(walks, idxs, i);
      FlattenAppend(Picked(walks, idxs[..i]), walks[idxs[i]]);
    }
    assert idxs[..|idxs|] == idxs;
  }

  // ---------------------------------------------------------------------------
  // Candidates (award_id.py:754-764)
  // ---------------------------------------------------------------------------

  /** Every string the merger returns for some seed, in either direction. */
  function MergedSet(tokens: seq<string>, flagged: seq<string>, acronyms: set<string>, words: set<string>): set<string>
  {
    set j: nat, forward: bool, x | j < |tokens| && tokens[j] in flagged &&
                                   x in Items(AddIsolated(tokens, j, Elements(flagged), acronyms, words, forward)) :: x
  }

  /** `w.translate(str.maketrans('', '', stops))` for every candidate. */
  function StripStops(ws: seq<string>): (r: seq<string>)
    ensures |r| == |ws|
  {
    seq(|ws|, k requires 0 <= k < |ws| => RemoveChars(ws[k], Stops))
  }

  /** `len(removePunctuation(w)) > 4 and any(c.isdigit() for c in w)`. */
  predicate KeepCandidate(w: string)
  {
    |RemovePunctuation(w, {})| > 4 && HasDigit(w)
  }

  /** The candidates that pass the filter, in order. */
  function FilterCandidates(ws: seq<string>): (r: seq<string>)
    ensures forall w :: w in r <==> w in ws && KeepCandidate(w)
  {
    if ws == [] then []
    else
      var rest := FilterCandidates(ws[1..]);
      assert forall w :: w in ws <==> w == ws[0] || w in ws[1..];
      if KeepCandidate(ws[0]) then [ws[0]] + rest else rest
  }

  /** The candidates of `T`, without stop characters, that pass the filter. */
  function Cleaned(T: set<string>): set<string>
  {
    set c | c in T && KeepCandidate(RemoveChars(c, Stops)) :: RemoveChars(c, Stops)
  }

  /** The candidates that survive, as a set: the flagged tokens and the merged
      strings, without stop characters, passing the filter. */
  function Survivors(tokens: seq<string>, flagged: seq<string>, acronyms: set<string>, words: set<string>): set<string>
  {
    Cleaned(Elements(flagged) + MergedSet(tokens, flagged, acronyms, words))
  }

  /** The strictly increasing sequence of the elements of a set. */
  ghost function Ordered(S: set<string>): (r: seq<string>)
    ensures Increasing(r) && Elements(r) == S
  {
    EnumerationExists(S);
    var s :| NoDuplicates(s) && Elements(s) == S;
    SortedDistinct(s);
    SameElements(s, SortBy(s, LexLe));
    SortBy(s, LexLe)
  }

  lemma EnumerationExists(S: set<string>)
    ensures exists s :: NoDuplicates(s) && Elements(s) == S
    decreases |S|
  {
    if S == {} {
      assert NoDuplicates([]) && Elements([]) == S;
    } else {
      var x :| x in S;
      var rest := S - {x};
      assert x !in rest && rest + {x} == S;
      EnumerationExists(rest);
      var s :| NoDuplicates(s) && Elements(s) == rest;
      ElementsSnoc(s, x);
      NoDuplicatesSnoc(s, x);
      assert NoDuplicates(s + [x]) && Elements(s + [x]) == S;
    }
  }

  lemma NoDuplicatesSnoc(s: seq<string>, x: string)
    requires NoDuplicates(s) && x !in Elements(s)
    ensures NoDuplicates(s + [x])
  {
  }

  lemma ElementsSnoc(s: seq<string>, x: string)
    ensures Elements(s + [x]) == Elements(s) + {x}
  {
    assert forall v :: v in s + [x] <==> v in s || v == x;
  }

  /** The `award_id` field for a set of surviving candidates: `''` when there
      is none, otherwise the maximal ones in string order joined by `|`. */
  ghost function AwardIdOf(S: set<string>): string
  {
    if S == {} then "" else Join(Ordered(Maximal(S)), "|")
  }

  // ---------------------------------------------------------------------------
  // The extractor's last stage (award_id.py:732-775)
  // ---------------------------------------------------------------------------

  /** The strings merged in both directions are those of `MergedSet`. */
  lemma AddedIsMerged(tokens: seq<string>, flagged: seq<string>, acronyms: set<string>, words: set<string>,
                      idxs: seq<nat>)
    requires forall k :: 0 <= k < |idxs| ==> idxs[k] < |tokens|
    requires forall j: nat :: j in idxs <==> j in Seeds(tokens, flagged)
    ensures Elements(Flatten(Calls(tokens, flagged, acronyms, words, idxs, false)) +
                     Flatten(Calls(tokens, flagged, acronyms, words, idxs, true)))
            == MergedSet(tokens, flagged, acronyms, words)
  {
    forall x | x in MergedSet(tokens, flagged, acronyms, words)
      ensures x in Flatten(Calls(tokens, flagged, acronyms, words, idxs, false)) +
                   Flatten(Calls(tokens, flagged, acronyms, words, idxs, true))
    {
      var j: nat, forward: bool :| j < |tokens| && tokens[j] in flagged &&
                                   x in Items(AddIsolated(tokens, j, Elements(flagged), acronyms, words, forward));
      assert j in Seeds(tokens, flagged);
      var k :| 0 <= k < |idxs| && idxs[k] == j;
      var calls := Calls(tokens, flagged, acronyms, words, idxs, forward);
      CallsAt(tokens, flagged, acronyms, words, idxs, forward, k);
      assert x in Items(calls[k]);
      FlattenMembers(calls, x);
    }
    forall x | x in Flatten(Calls(tokens, flagged, acronyms, words, idxs, false)) +
                    Flatten(Calls(tokens, flagged, acronyms, words, idxs, true))
      ensures x in MergedSet(tokens, flagged, acronyms, words)
    {
      var forward := x !in Flatten(Calls(tokens, flagged, acronyms, words, idxs, false));
      var calls := Calls(tokens, flagged, acronyms, words, idxs, forward);
      FlattenMembers(calls, x);
      var k :| 0 <= k < |calls| && x in Items(calls[k]);
      CallsAt(tokens, flagged, acronyms, words, idxs, forward, k);
      var j := idxs[k];
      assert j in Seeds(tokens, flagged);
      assert x in Items(AddIsolated(tokens, j, Elements(flagged), acronyms, words, forward));
    }
  }

  /** Stripping and filtering a list of candidates keeps `Cleaned` of its
      elements. */
  lemma FilterStripped(order: seq<string>)
    ensures Elements(FilterCandidates(StripStops(order))) == Cleaned(Elements(order))
  {
    var stripped := StripStops(order);
    forall w | w in Cleaned(Elements(order)) ensures w in FilterCandidates(stripped) {
      var c :| c in Elements(order) && KeepCandidate(RemoveChars(c, Stops)) && w == RemoveChars(c, Stops);
      var k :| 0 <= k < |order| && order[k] == c;
      assert stripped[k] == w;
    }
    forall w | w in FilterCandidates(stripped) ensures w in Cleaned(Elements(order)) {
      var k :| 0 <= k < |stripped| && stripped[k] == w;
      assert order[k] in Elements(order);
    }
  }

  /** A non-empty set has a maximal element. */
  lemma MaximalNonEmpty(S: set<string>)
    requires S != {}
    ensures Maximal(S) != {}
  {
    var w :| w in S;
    Covered(S, w);
  }

  /** What the extractor's pass leaves is empty only when its input is, and
      `removeShorter` then orders the maximal candidates of that input. */
  lemma DroppedEmpty(s: seq<string>, dropped: seq<string>)
    requires Maximal(Elements(s)) <= Elements(dropped) <= Elements(s)
    ensures dropped == [] <==> s == []
  {
    if s != [] {
      assert s[0] in Elements(s);
      MaximalNonEmpty(Elements(s));
      ElementsEmpty(dropped);
    }
    if dropped != [] {
      assert dropped[0] in Elements(dropped);
    }
  }

  lemma DedupResult(s: seq<string>, dropped: seq<string>, r: seq<string>)
    requires Maximal(Elements(s)) <= Elements(dropped) <= Elements(s)
    requires Increasing(r) && Elements(r) == Maximal(Elements(dropped))
    ensures r == Ordered(Maximal(Elements(s)))
  {
    MaximalBetween(Elements(s), Elements(dropped));
    IncreasingUnique(r, Ordered(Maximal(Elements(s))));
  }

  /** Lines 732-760: the surviving candidates, with duplicates possible and
      in an order the set iteration decides. */
  method SurvivingCandidates(tokens: seq<string>, flagged: seq<string>, acronyms: set<string>, words: set<string>)
    returns (s: seq<string>)
    ensures Elements(s) == Survivors(tokens, flagged, acronyms, words)
  {
    var idxs := CollectSeeds(tokens, flagged);
    var back := MergeAll(tokens, flagged, acronyms, words, idxs, false);
    var fwd := MergeAll(tokens, flagged, acronyms, words, idxs, true);
    var sAdd := back + fwd;
    AddedIsMerged(tokens, flagged, acronyms, words, idxs);
    var order := Enumerate(Elements(flagged + sAdd));
    s := FilterCandidates(StripStops(order));
    FilterStripped(order);
    assert Elements(flagged + sAdd) == Elements(flagged) + Elements(sAdd) by {
      assert forall v :: v in flagged + sAdd <==> v in flagged || v in sAdd;
    }
  }

  /** Lines 766-775: deduplicate, fall back to `['']`, and join with `|`. */
  method JoinAwardIds(s: seq<string>) returns (awardId: string)
    ensures awardId == AwardIdOf(Elements(s))
  {
    var dropped := DropContained(s);
    var ids;
    if |dropped| == 0 {
      ids := [""];
    } else {
      ids := RemoveShorter(dropped);
    }
    awardId := Join(ids, "|");
    ElementsEmpty(s);
    DroppedEmpty(s, dropped);
    if |dropped| > 0 {
      DedupResult(s, dropped, ids);
    }
  }

  /** The final stage of `award_id_extractor` over the full token list
      `tokens` and the flagged tokens `flagged`: collect seeds, merge in both
      directions, strip, filter, flag a potential year, deduplicate and join.
      The result depends only on the set of surviving candidates, not on the
      order in which Python iterates over its sets. */
  method ExtractAwardId(tokens: seq<string>, flagged: seq<string>, acronyms: set<string>, words: set<string>,
                        currentYear: int) returns (awardId: string, potentialYear: bool)
    ensures awardId == AwardIdOf(Survivors(tokens, flagged, acronyms, words))
    ensures potentialYear <==> exists w :: w in Survivors(tokens, flagged, acronyms, words) && IsYear(w, currentYear)
  {
    var s := SurvivingCandidates(tokens, flagged, acronyms, words);
    potentialYear := exists w :: w in s && IsYear(w, currentYear);
    awardId := JoinAwardIds(s);
  }

  // ---------------------------------------------------------------------------
  // What the stage promises
  // ---------------------------------------------------------------------------

  /** Every surviving candidate is free of stop characters, has more than four
      characters besides punctuation, and has a digit. */
  lemma SurvivorShape(tokens: seq<string>, flagged: seq<string>, acronyms: set<string>, words: set<string>, w: string)
    requires w in Survivors(tokens, flagged, acronyms, words)
    ensures forall k :: 0 <= k < |w| ==> w[k] !in Stops
    ensures |RemovePunctuation(w, {})| > 4 && HasDigit(w)
  {
  }

  /** Over tokenizer output, every surviving candidate is made of token
      characters and `+`. */
  lemma SurvivorChars(tokens: seq<string>, flagged: seq<string>, acronyms: set<string>, words: set<string>, w: string)
    requires forall k :: 0 <= k < |tokens| ==> AllTokenChars(tokens[k])
    requires forall k :: 0 <= k < |flagged| ==> AllTokenChars(flagged[k])
    requires w in Survivors(tokens, flagged, acronyms, words)
    ensures AllCandidateChars(w)
  {
    var c :| c in Elements(flagged) + MergedSet(tokens, flagged, acronyms, words) && w == RemoveChars(c, Stops);
    if c in Elements(flagged) {
      var k :| 0 <= k < |flagged| && flagged[k] == c;
    } else {
      var j: nat, forward: bool :| j < |tokens| && tokens[j] in flagged &&
                                   c in Items(AddIsolated(tokens, j, Elements(flagged), acronyms, words, forward));
      MergedChars(tokens, j, Elements(flagged), acronyms, words, forward);
    }
    forall i | 0 <= i < |w| ensures IsCandidateChar(w[i]) {
      SubsequenceMembers(w, c, i);
    }
  }

  /** A year is four digits, possibly before a final newline; a kept
      candidate made of token characters is longer than four characters and
      has no newline. */
  lemma NoYearCandidate(w: string, currentYear: int)
    requires AllCandidateChars(w) && KeepCandidate(w)
    ensures !IsYear(w, currentYear)
  {
    if |w| == 5 {
      assert IsCandidateChar(w[4]);
    }
  }

  /** The potential-year flag of the extractor is never raised over
      tokenizer output. */
  lemma PotentialYearNeverSet(tokens: seq<string>, flagged: seq<string>, acronyms: set<string>, words: set<string>,
                              currentYear: int)
    requires forall k :: 0 <= k < |tokens| ==> AllTokenChars(tokens[k])
    requires forall k :: 0 <= k < |flagged| ==> AllTokenChars(flagged[k])
    ensures !exists w :: w in Survivors(tokens, flagged, acronyms, words) && IsYear(w, currentYear)
  {
    forall w | w in Survivors(tokens, flagged, acronyms, words) ensures !IsYear(w, currentYear) {
      SurvivorShape(tokens, flagged, acronyms, words, w);
      SurvivorChars(tokens, flagged, acronyms, words, w);
      NoYearCandidate(w, currentYear);
    }
  }

  /** `award_id` is `''` exactly when no candidate survives. */
  lemma AwardIdEmpty(tokens: seq<string>, flagged: seq<string>, acronyms: set<string>, words: set<string>)
    ensures AwardIdOf(Survivors(tokens, flagged, acronyms, words)) == "" <==> Survivors(tokens, flagged, acronyms, words) == {}
  {
    var S := Survivors(tokens, flagged, acronyms, words);
    if S != {} {
      MaximalNonEmpty(S);
      var r := Ordered(Maximal(S));
      ElementsEmpty(r);
      assert r[0] in Elements(r);
      assert r[0] in S;
      assert |r[0]| > 0;
      if |r| > 1 {
        JoinCons(r, "|");
      }
    }
  }

  /** Splitting `award_id` at `|` gives back the maximal candidates in
      string order, when none of them contains `|`. */
  lemma {:induction false} SplitJoined(ids: seq<string>)
    requires |ids| > 0
    requires forall k, i :: 0 <= k < |ids| && 0 <= i < |ids[k]| ==> ids[k][i] != '|'
    ensures SplitOn(Join(ids, "|"), {'|'}) == ids
  {
    if |ids| == 1 {
      SplitOnNone(ids[0], {'|'});
    } else {
      SplitJoined(ids[1..]);
      SplitOnNone(ids[0], {'|'});
      SplitOnConcat(ids[0], '|', Join(ids[1..], "|"), {'|'});
      assert ids[0] + "|" + Join(ids[1..], "|") == ids[0] + ['|'] + Join(ids[1..], "|");
      assert ids == [ids[0]] + ids[1..];
    }
  }

  lemma AwardIdSplitsSet(S: set<string>)
    requires S != {}
    requires forall w, i :: w in S && 0 <= i < |w| ==> w[i] != '|'
    ensures SplitOn(AwardIdOf(S), {'|'}) == Ordered(Maximal(S))
  {
    var r := Ordered(Maximal(S));
    MaximalNonEmpty(S);
    ElementsEmpty(r);
    forall k, i | 0 <= k < |r| && 0 <= i < |r[k]| ensures r[k][i] != '|' {
      assert r[k] in Elements(r);
    }
    SplitJoined(r);
  }

  /** Candidate characters do not include `|`. */
  lemma CandidatesHaveNoBar(S: set<string>)
    requires forall w :: w in S ==> AllCandidateChars(w)
    ensures forall w, i :: w in S && 0 <= i < |w| ==> w[i] != '|'
  {
    forall w, i | w in S && 0 <= i < |w| ensures w[i] != '|' {
      assert IsCandidateChar(w[i]);
    }
  }

  /** Over tokenizer output, no surviving candidate contains `|`. */
  lemma SurvivorsHaveNoBar(tokens: seq<string>, flagged: seq<string>, acronyms: set<string>, words: set<string>)
    requires forall k :: 0 <= k < |tokens| ==> AllTokenChars(tokens[k])
    requires forall k :: 0 <= k < |flagged| ==> AllTokenChars(flagged[k])
    ensures forall w, i :: w in Survivors(tokens, flagged, acronyms, words) && 0 <= i < |w| ==> w[i] != '|'
  {
    var S := Survivors(tokens, flagged, acronyms, words);
    forall w | w in S ensures AllCandidateChars(w) {
      SurvivorChars(tokens, flagged, acronyms, words, w);
    }
    CandidatesHaveNoBar(S);
  }

  /** Splitting `award_id` at `|` gives back the maximal surviving
      candidates in string order. */
  lemma AwardIdSplits(tokens: seq<string>, flagged: seq<string>, acronyms: set<string>, words: set<string>)
    requires forall k :: 0 <= k < |tokens| ==> AllTokenChars(tokens[k])
    requires forall k :: 0 <= k < |flagged| ==> AllTokenChars(flagged[k])
    requires Survivors(tokens, flagged, acronyms, words) != {}
    ensures SplitOn(AwardIdOf(Survivors(tokens, flagged, acronyms, words)), {'|'})
            == Ordered(Maximal(Survivors(tokens, flagged, acronyms, words)))
  {
    SurvivorsHaveNoBar(tokens, flagged, acronyms, words);
    AwardIdSplitsSet(Survivors(tokens, flagged, acronyms, words));
  }
}
