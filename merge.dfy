/** `addIsolated` (award_id.py): a flagged token absorbs its isolated
    neighbours, walking left (backward) or right (forward) over the token list,
    into `a+b` strings. */
module Merger {
  import opened Text
  import opened Tokens

  /** The result of one call: the seed itself (the source returns the bare
      string), or a list of one or two merged strings. */
  datatype Merge = Unmerged(seed: string) | Joined(first: string) | FannedOut(first: string, second: string)

  /** `new_sg[0] if isinstance(new_sg, list) else new_sg`. */
  function Head(m: Merge): string
  {
    match m
    case Unmerged(s) => s
    case Joined(f) => f
    case FannedOut(f, _) => f
  }

  /** The strings the caller appends to its candidate list. */
  function Items(m: Merge): seq<string>
  {
    match m
    case Unmerged(s) => [s]
    case Joined(f) => [f]
    case FannedOut(f, g) => [f, g]
  }

  /** `x[:1] in stops` with `stops == '.,;:'`: an empty slice is a substring of
      every string, so an empty word also counts as facing a stop. */
  predicate FirstIsStop(x: string) { x == [] || x[0] in Stops }

  /** `x[-1:] in stops`, with the same empty-slice behaviour. */
  predicate LastIsStop(x: string) { x == [] || x[|x| - 1] in Stops }

  /** The two words touch across a stop character in the walk direction. */
  predicate FacesStop(seed: string, piece: string, forward: bool)
  {
    if forward then LastIsStop(seed) || FirstIsStop(piece)
    else FirstIsStop(seed) || LastIsStop(piece)
  }

  /** The neighbour, stop characters deleted, is an upper-case non-acronym or
      a short number. */
  predicate Absorbable(piece: string, acronyms: set<string>)
  {
    var p := RemoveChars(piece, Stops);
    (PyIsUpper(p) && !IsAcronym(p, acronyms)) ||
    (|RemovePunctuation(p, {})| < 5 && PyIsNumeric(RemovePunctuation(p, {})))
  }

  /** The backward "X and Y" test on the two tokens after the seed: `Y` looks
      like a sibling of the seed. */
  predicate SiblingAfterAnd(tokens: seq<string>, i: nat, chain: string, acronyms: set<string>, words: set<string>)
  {
    && |tokens| > i + 2
    && tokens[i + 1] == "and"
    && tokens[i + 2] != chain
    && !HasLower(tokens[i + 2])
    && !IsAcronym(tokens[i + 2], acronyms)
    && tokens[i + 2] !in words
    && -2 < |tokens[i]| - |tokens[i + 2]| < 2
  }

  /** The seed stays alone: it is at the end of the list in the walk
      direction, faces a stop, or its neighbour cannot be absorbed. */
  predicate Stays(tokens: seq<string>, i: nat, acronyms: set<string>, forward: bool)
    requires i < |tokens|
  {
    if forward then i == |tokens| - 1 || FacesStop(tokens[i], tokens[i + 1], forward) || !Absorbable(tokens[i + 1], acronyms)
    else i == 0 || FacesStop(tokens[i], tokens[i - 1], forward) || !Absorbable(tokens[i - 1], acronyms)
  }

  /** `addIsolated(tokens, i, others, acronyms, stops, forward)`: the walk
      direction picks one of the two walks below. */
  function AddIsolated(tokens: seq<string>, i: nat, others: set<string>, acronyms: set<string>,
                       words: set<string>, forward: bool): (m: Merge)
    requires i < |tokens|
    ensures m.Unmerged? <==> Stays(tokens, i, acronyms, forward)
    ensures m.Unmerged? ==> m.seed == tokens[i]
    ensures forward ==> !m.FannedOut?
    ensures !m.Unmerged? && forward ==> StartsWith(Head(m), tokens[i] + "+")
    ensures !m.Unmerged? && !forward ==> EndsWith(Head(m), "+" + tokens[i])
    ensures m.FannedOut? ==> |tokens| > i + 2 && EndsWith(m.second, "+" + tokens[i + 2])
  {
    if forward then AddForward(tokens, i, acronyms) else AddBackward(tokens, i, others, acronyms, words)
  }

  /** `addIsolated` with `forward=False`. The token list is a value and is
      never changed; each recursive call moves one step left. */
  function AddBackward(tokens: seq<string>, i: nat, others: set<string>, acronyms: set<string>,
                       words: set<string>): (m: Merge)
    requires i < |tokens|
    ensures m.Unmerged? <==> Stays(tokens, i, acronyms, false)
    ensures m.Unmerged? ==> m.seed == tokens[i]
    ensures !m.Unmerged? ==> EndsWith(Head(m), "+" + tokens[i])
    ensures m.FannedOut? ==> |tokens| > i + 2 && EndsWith(m.second, "+" + tokens[i + 2])
    decreases i
  {
    var seed := tokens[i];
    if Stays(tokens, i, acronyms, false) then Unmerged(seed)
    else
      var chain := Head(AddBackward(tokens, i - 1, others, acronyms, words));
      GlueFacts(chain, seed);
      if !SiblingAfterAnd(tokens, i, chain, acronyms, words) then Joined(chain + "+" + seed)
      else if |tokens| > i + 3 && tokens[i + 3] in others then Joined(chain + "+" + seed)
      else GlueFacts(chain, tokens[i + 2]); FannedOut(chain + "+" + seed, chain + "+" + tokens[i + 2])
  }

  /** `addIsolated` with `forward=True`: each recursive call moves one step
      right, and the "X and Y" test is never made. */
  function AddForward(tokens: seq<string>, i: nat, acronyms: set<string>): (m: Merge)
    requires i < |tokens|
    ensures m.Unmerged? <==> Stays(tokens, i, acronyms, true)
    ensures m.Unmerged? ==> m.seed == tokens[i]
    ensures !m.FannedOut?
    ensures !m.Unmerged? ==> StartsWith(Head(m), tokens[i] + "+")
    decreases |tokens| - i
  {
    var seed := tokens[i];
    if Stays(tokens, i, acronyms, true) then Unmerged(seed)
    else
      var chain := Head(AddForward(tokens, i + 1, acronyms));
      GlueFacts(seed, chain);
      Joined(seed + "+" + chain)
  }

  /** Two words glued by `+` start with the first and `+`, and end with `+`
      and the second. */
  lemma GlueFacts(a: string, b: string)
    ensures StartsWith(a + "+" + b, a + "+") && EndsWith(a + "+" + b, "+" + b)
  {
    assert (a + "+" + b)[|a| + 1..] == b;
  }

  /** `s` is the tokens from `first` to `last` inclusive, joined by `+`. */
  predicate JoinsRun(tokens: seq<string>, first: int, last: int, s: string)
  {
    0 <= first <= last < |tokens| && s == Join(tokens[first..last + 1], "+")
  }

  /** A backward step glues the neighbour's chain in front of the seed. */
  lemma BackwardHead(tokens: seq<string>, i: nat, others: set<string>, acronyms: set<string>, words: set<string>)
    requires i < |tokens| && !Stays(tokens, i, acronyms, false)
    ensures i > 0
    ensures Head(AddBackward(tokens, i, others, acronyms, words))
            == Head(AddBackward(tokens, i - 1, others, acronyms, words)) + "+" + tokens[i]
  {
  }

  /** A forward step glues the seed in front of the neighbour's chain. */
  lemma ForwardHead(tokens: seq<string>, i: nat, acronyms: set<string>)
    requires i < |tokens| && !Stays(tokens, i, acronyms, true)
    ensures i + 1 < |tokens|
    ensures Head(AddForward(tokens, i, acronyms))
            == tokens[i] + "+" + Head(AddForward(tokens, i + 1, acronyms))
  {
  }

  /** A run extended by the token after it. */
  lemma RunSnoc(tokens: seq<string>, k: int, i: nat, chain: string)
    requires 0 < i < |tokens| && JoinsRun(tokens, k, i - 1, chain)
    ensures JoinsRun(tokens, k, i, chain + "+" + tokens[i])
  {
    assert tokens[k..i + 1] == tokens[k..i] + [tokens[i]];
    JoinSnoc(tokens[k..i], tokens[i], "+");
  }

  /** A run extended by the token before it. */
  lemma RunCons(tokens: seq<string>, i: nat, k: int, chain: string)
    requires i + 1 < |tokens| && JoinsRun(tokens, i + 1, k, chain)
    ensures JoinsRun(tokens, i, k, tokens[i] + "+" + chain)
  {
    assert tokens[i..k + 1][1..] == tokens[i + 1..k + 1];
    JoinCons(tokens[i..k + 1], "+");
  }

  /** A single token is a run. */
  lemma RunOne(tokens: seq<string>, i: nat)
    requires i < |tokens|
    ensures JoinsRun(tokens, i, i, tokens[i])
  {
    assert tokens[i..i + 1] == [tokens[i]];
  }

  /** Which tokens stay alone when walking in the given direction. */
  function StayFlags(tokens: seq<string>, acronyms: set<string>, forward: bool): (f: seq<bool>)
    ensures |f| == |tokens|
  {
    seq(|tokens|, j requires 0 <= j < |tokens| => Stays(tokens, j, acronyms, forward))
  }

  /** The last position at or before `i` that is set, or 0. */
  function LastSet(f: seq<bool>, i: nat): (k: nat)
    requires i < |f|
    ensures k <= i
    decreases i
  {
    if i == 0 || f[i] then i else LastSet(f, i - 1)
  }

  /** The first position at or after `i` that is set, or the last one. */
  function FirstSet(f: seq<bool>, i: nat): (k: nat)
    requires i < |f|
    ensures i <= k < |f|
    decreases |f| - i
  {
    if i == |f| - 1 || f[i] then i else FirstSet(f, i + 1)
  }

  /** `LastSet` finds the nearest set position, skipping only unset ones. */
  lemma {:induction false} LastSetShape(f: seq<bool>, i: nat)
    requires i < |f|
    ensures LastSet(f, i) == 0 || f[LastSet(f, i)]
    ensures forall j :: LastSet(f, i) < j <= i ==> !f[j]
    decreases i
  {
    if i > 0 && !f[i] {
      LastSetShape(f, i - 1);
    }
  }

  /** `FirstSet` finds the nearest set position, skipping only unset ones. */
  lemma {:induction false} FirstSetShape(f: seq<bool>, i: nat)
    requires i < |f|
    ensures FirstSet(f, i) == |f| - 1 || f[FirstSet(f, i)]
    ensures forall j :: i <= j < FirstSet(f, i) ==> !f[j]
    decreases |f| - i
  {
    if i < |f| - 1 && !f[i] {
      FirstSetShape(f, i + 1);
    }
  }

  /** Where a backward walk from `i` stops: the nearest token at or before
      `i` that stays. */
  function RunStart(tokens: seq<string>, i: nat, acronyms: set<string>): (k: nat)
    requires i < |tokens|
    ensures k <= i
  {
    LastSet(StayFlags(tokens, acronyms, false), i)
  }

  /** Where a forward walk from `i` stops: the nearest token at or after `i`
      that stays. */
  function RunEnd(tokens: seq<string>, i: nat, acronyms: set<string>): (k: nat)
    requires i < |tokens|
    ensures i <= k < |tokens|
  {
    FirstSet(StayFlags(tokens, acronyms, true), i)
  }

  /** A token that does not stay passes the backward walk on. */
  lemma RunStartStep(tokens: seq<string>, i: nat, acronyms: set<string>)
    requires i < |tokens| && !Stays(tokens, i, acronyms, false)
    ensures i > 0 && RunStart(tokens, i, acronyms) == RunStart(tokens, i - 1, acronyms)
  {
    assert !StayFlags(tokens, acronyms, false)[i];
  }

  /** A token that does not stay passes the forward walk on. */
  lemma RunEndStep(tokens: seq<string>, i: nat, acronyms: set<string>)
    requires i < |tokens| && !Stays(tokens, i, acronyms, true)
    ensures i + 1 < |tokens| && RunEnd(tokens, i, acronyms) == RunEnd(tokens, i + 1, acronyms)
  {
    assert !StayFlags(tokens, acronyms, true)[i];
  }

  /** The backward walk stops at the first token that stays, and every token
      it passes on the way could be absorbed. */
  lemma RunStartStops(tokens: seq<string>, i: nat, acronyms: set<string>)
    requires i < |tokens|
    ensures Stays(tokens, RunStart(tokens, i, acronyms), acronyms, false)
    ensures forall j :: RunStart(tokens, i, acronyms) < j <= i ==> !Stays(tokens, j, acronyms, false)
  {
    var f := StayFlags(tokens, acronyms, false);
    var k := RunStart(tokens, i, acronyms);
    LastSetShape(f, i);
    assert k == 0 || f[k];
    forall j | k < j <= i ensures !Stays(tokens, j, acronyms, false) {
      assert !f[j];
    }
  }

  /** The forward walk stops at the first token that stays, and every token
      it passes on the way could be absorbed. */
  lemma RunEndStops(tokens: seq<string>, i: nat, acronyms: set<string>)
    requires i < |tokens|
    ensures Stays(tokens, RunEnd(tokens, i, acronyms), acronyms, true)
    ensures forall j :: i <= j < RunEnd(tokens, i, acronyms) ==> !Stays(tokens, j, acronyms, true)
  {
    var f := StayFlags(tokens, acronyms, true);
    var k := RunEnd(tokens, i, acronyms);
    FirstSetShape(f, i);
    assert k == |tokens| - 1 || f[k];
    forall j | i <= j < k ensures !Stays(tokens, j, acronyms, true) {
      assert !f[j];
    }
  }

  /** The backward chain joins the tokens from `RunStart` to the seed. */
  lemma {:induction false} BackwardJoinsRun(tokens: seq<string>, i: nat, others: set<string>,
                                            acronyms: set<string>, words: set<string>)
    requires i < |tokens|
    ensures JoinsRun(tokens, RunStart(tokens, i, acronyms), i, Head(AddBackward(tokens, i, others, acronyms, words)))
    decreases i
  {
    if Stays(tokens, i, acronyms, false) {
      assert StayFlags(tokens, acronyms, false)[i];
      RunOne(tokens, i);
    } else {
      BackwardHead(tokens, i, others, acronyms, words);
      RunStartStep(tokens, i, acronyms);
      BackwardJoinsRun(tokens, i - 1, others, acronyms, words);
      var k := RunStart(tokens, i - 1, acronyms);
      var chain := Head(AddBackward(tokens, i - 1, others, acronyms, words));
      RunSnoc(tokens, k, i, chain);
    }
  }

  /** The forward chain joins the tokens from the seed to `RunEnd`. */
  lemma {:induction false} ForwardJoinsRun(tokens: seq<string>, i: nat, acronyms: set<string>)
    requires i < |tokens|
    ensures JoinsRun(tokens, i, RunEnd(tokens, i, acronyms), Head(AddForward(tokens, i, acronyms)))
    decreases |tokens| - i
  {
    if Stays(tokens, i, acronyms, true) {
      assert StayFlags(tokens, acronyms, true)[i];
      RunOne(tokens, i);
    } else {
      ForwardHead(tokens, i, acronyms);
      RunEndStep(tokens, i, acronyms);
      ForwardJoinsRun(tokens, i + 1, acronyms);
      var k := RunEnd(tokens, i + 1, acronyms);
      var chain := Head(AddForward(tokens, i + 1, acronyms));
      RunCons(tokens, i, k, chain);
    }
  }

  /** The chain built by a backward walk is the run of consecutive tokens
      ending at the seed, joined by `+`. The run starts at the nearest token
      that stays, and every token after it up to the seed was absorbed. */
  lemma BackwardChainIsRun(tokens: seq<string>, i: nat, others: set<string>,
                           acronyms: set<string>, words: set<string>) returns (k: nat)
    requires i < |tokens|
    ensures JoinsRun(tokens, k, i, Head(AddBackward(tokens, i, others, acronyms, words)))
    ensures Stays(tokens, k, acronyms, false)
    ensures forall j :: k < j <= i ==> !Stays(tokens, j, acronyms, false)
  {
    k := RunStart(tokens, i, acronyms);
    BackwardJoinsRun(tokens, i, others, acronyms, words);
    RunStartStops(tokens, i, acronyms);
  }

  /** A forward walk's chain is the run of consecutive tokens starting at the
      seed, joined by `+`. The run ends at the nearest token that stays, and
      every token from the seed up to it was absorbed. */
  lemma ForwardChainIsRun(tokens: seq<string>, i: nat, acronyms: set<string>) returns (k: nat)
    requires i < |tokens|
    ensures JoinsRun(tokens, i, k, Head(AddForward(tokens, i, acronyms)))
    ensures Stays(tokens, k, acronyms, true)
    ensures forall j :: i <= j < k ==> !Stays(tokens, j, acronyms, true)
  {
    k := RunEnd(tokens, i, acronyms);
    ForwardJoinsRun(tokens, i, acronyms);
    RunEndStops(tokens, i, acronyms);
  }

  /** A backward call returns two strings exactly when the seed absorbs its
      left neighbour, the "X and Y" test holds for the next two tokens, and
      the token after `Y` is missing or not itself flagged. */
  lemma FanOutExactly(tokens: seq<string>, i: nat, others: set<string>, acronyms: set<string>,
                      words: set<string>)
    requires i < |tokens|
    ensures var m := AddBackward(tokens, i, others, acronyms, words);
            m.FannedOut? <==>
              && !Stays(tokens, i, acronyms, false)
              && SiblingAfterAnd(tokens, i, Head(AddBackward(tokens, i - 1, others, acronyms, words)), acronyms, words)
              && !(|tokens| > i + 3 && tokens[i + 3] in others)
  {
  }

  /** Characters that occur in tokens or merged candidates. */
  predicate IsCandidateChar(c: char) { IsTokenChar(c) || c == '+' }

  predicate AllCandidateChars(s: string) { forall k :: 0 <= k < |s| ==> IsCandidateChar(s[k]) }

  lemma TokenIsCandidate(s: string)
    requires AllTokenChars(s)
    ensures AllCandidateChars(s)
  {
  }

  lemma GluedChars(a: string, b: string)
    requires AllCandidateChars(a) && AllCandidateChars(b)
    ensures AllCandidateChars(a + "+" + b)
  {
    var s := a + "+" + b;
    forall k | 0 <= k < |s| ensures IsCandidateChar(s[k]) {
      if k < |a| { assert s[k] == a[k]; }
      else if k > |a| { assert s[k] == b[k - |a| - 1]; }
    }
  }

  /** A backward fan-out's second string glues the neighbour's chain to the
      token after "and". */
  lemma BackwardSecond(tokens: seq<string>, i: nat, others: set<string>, acronyms: set<string>, words: set<string>)
    requires i < |tokens| && AddBackward(tokens, i, others, acronyms, words).FannedOut?
    ensures 0 < i && i + 2 < |tokens|
    ensures AddBackward(tokens, i, others, acronyms, words).second
            == Head(AddBackward(tokens, i - 1, others, acronyms, words)) + "+" + tokens[i + 2]
  {
  }

  /** The head of a call is one of its strings. */
  lemma HeadInItems(m: Merge)
    ensures Head(m) in Items(m)
  {
  }

  /** The strings of a call are its head and, on a fan-out, its second. */
  lemma ItemsChars(m: Merge)
    requires AllCandidateChars(Head(m)) && (m.FannedOut? ==> AllCandidateChars(m.second))
    ensures forall x :: x in Items(m) ==> AllCandidateChars(x)
  {
  }

  /** Backward merging only glues tokens with `+`. */
  lemma {:induction false} BackwardChars(tokens: seq<string>, i: nat, others: set<string>, acronyms: set<string>,
                                         words: set<string>)
    requires i < |tokens|
    requires forall k :: 0 <= k < |tokens| ==> AllTokenChars(tokens[k])
    ensures forall x :: x in Items(AddBackward(tokens, i, others, acronyms, words)) ==> AllCandidateChars(x)
    decreases i
  {
    var m := AddBackward(tokens, i, others, acronyms, words);
    if Stays(tokens, i, acronyms, false) {
      assert Head(m) == tokens[i];
    } else {
      BackwardHead(tokens, i, others, acronyms, words);
      BackwardChars(tokens, i - 1, others, acronyms, words);
      var chain := Head(AddBackward(tokens, i - 1, others, acronyms, words));
      HeadInItems(AddBackward(tokens, i - 1, others, acronyms, words));
      TokenIsCandidate(tokens[i]);
      GluedChars(chain, tokens[i]);
      if m.FannedOut? {
        BackwardSecond(tokens, i, others, acronyms, words);
        TokenIsCandidate(tokens[i + 2]);
        GluedChars(chain, tokens[i + 2]);
      }
    }
    ItemsChars(m);
  }

  /** Forward merging only glues tokens with `+`. */
  lemma {:induction false} ForwardChars(tokens: seq<string>, i: nat, acronyms: set<string>)
    requires i < |tokens|
    requires forall k :: 0 <= k < |tokens| ==> AllTokenChars(tokens[k])
    ensures forall x :: x in Items(AddForward(tokens, i, acronyms)) ==> AllCandidateChars(x)
    decreases |tokens| - i
  {
    if !Stays(tokens, i, acronyms, true) {
      ForwardChars(tokens, i + 1, acronyms);
      var chain := Head(AddForward(tokens, i + 1, acronyms));
      HeadInItems(AddForward(tokens, i + 1, acronyms));
      TokenIsCandidate(tokens[i]);
      GluedChars(tokens[i], chain);
    }
  }

  /** Merging only glues tokens with `+`: over tokenizer output, every
      returned string is made of token characters and `+`. */
  lemma MergedChars(tokens: seq<string>, i: nat, others: set<string>, acronyms: set<string>,
                    words: set<string>, forward: bool)
    requires i < |tokens|
    requires forall k :: 0 <= k < |tokens| ==> AllTokenChars(tokens[k])
    ensures forall x :: x in Items(AddIsolated(tokens, i, others, acronyms, words, forward)) ==> AllCandidateChars(x)
  {
    if forward {
      ForwardChars(tokens, i, acronyms);
    } else {
      BackwardChars(tokens, i, others, acronyms, words);
    }
  }
}
