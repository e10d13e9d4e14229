/**
 What the three matching passes do, in terms of scores, thresholds and free candidates: who is matched in
 which pass, and what kind of match each pass can make.
 */
module MatchingPasses {
  import opened Core
  import opened Sorting
  import opened SymbolMatcher

  /** The best free candidate, the earliest of equals, and good enough to be looked at. */
  ghost predicate IsBestFree(p: Problem, now: Progress, f: Fingerprint, index: nat) {
    && |now.used| == |p.candidates| && index < |p.candidates| && !now.used[index]
    && p.score(f, p.candidates[index], now.anchors) >= 0.0
    && forall j :: 0 <= j < |p.candidates| && !now.used[j] ==>
         var s := p.score(f, p.candidates[j], now.anchors);
         s <= p.score(f, p.candidates[index], now.anchors)
           && (j < index ==> s < p.score(f, p.candidates[index], now.anchors))
  }

  /** The other free candidates stay behind by at least `lead`; a score below -1 counts as -1. */
  ghost predicate Leads(p: Problem, now: Progress, f: Fingerprint, index: nat, lead: real)
    requires |now.used| == |p.candidates| && index < |p.candidates|
  {
    var best := p.score(f, p.candidates[index], now.anchors);
    && best - (-1.0) >= lead
    && forall j :: 0 <= j < |p.candidates| && !now.used[j] && j != index ==>
         best - p.score(f, p.candidates[j], now.anchors) >= lead
  }

  /** Whether a score is enough in a pass. */
  predicate IsEnough(score: real, pass: nat, options: MatcherOptions) {
    score >= options.certainThreshold || (pass == 2 && score >= options.probableThreshold)
  }

  /** Equal hashes of instructions and control flow, and as many instructions. */
  predicate IsSameCode(f: Fingerprint, c: Fingerprint) {
    f.instructionHash == c.instructionHash && f.cfgHash == c.cfgHash && f.instructionCount == c.instructionCount
  }

  /** An equal signature, a near perfect score, or enough score and, where the match is but probable, enough lead. */
  ghost predicate Deserves(p: Problem, now: Progress, f: Fingerprint, pass: nat, index: nat) {
    && IsBestFree(p, now, f, index) && f.symbol < |p.symbols|
    && var best := p.score(f, p.candidates[index], now.anchors);
    || IsSameCode(f, p.candidates[index])
    || best >= 0.999
    || (IsEnough(best, pass, p.options)
          && (best >= p.options.probableThreshold ==> Leads(p, now, f, index, p.options.ambiguityMargin)))
  }

  /** What ranking knows about the candidate it puts first. */
  lemma RankedIsBest(p: Problem, now: Progress, f: Fingerprint, best: real, second: real, index: nat)
    requires |now.used| == |p.candidates|
    requires Ranks(p.candidates, now.used, f, p.score, now.anchors, best, second, index)
    ensures best >= 0.0 ==> IsBestFree(p, now, f, index) && best == p.score(f, p.candidates[index], now.anchors)
    ensures forall k: nat :: IsBestFree(p, now, f, k) ==> best >= 0.0 && k == index
  {
    forall k: nat | IsBestFree(p, now, f, k) ensures best >= 0.0 && k == index {
      assert p.score(f, p.candidates[k], now.anchors) <= best;
    }
  }

  lemma LeadIsMargin(p: Problem, now: Progress, f: Fingerprint, best: real, second: real, index: nat, lead: real)
    requires |now.used| == |p.candidates| && best >= 0.0
    requires Ranks(p.candidates, now.used, f, p.score, now.anchors, best, second, index)
    ensures best - second >= lead <==> Leads(p, now, f, index, lead)
  {
    if second > -1.0 {
      var j :| 0 <= j < |p.candidates| && !now.used[j] && j != index
            && p.score(f, p.candidates[j], now.anchors) == second;
    }
  }

  /** One turn, seen from outside. */
  ghost predicate TurnIs(p: Problem, before: Progress, after: Progress, f: Fingerprint, pass: nat) {
    || (after == before
          && (IsMatched(before.matches, f.symbol) || forall index: nat :: !Deserves(p, before, f, pass, index)))
    || (!IsMatched(before.matches, f.symbol) && exists index: nat :: MatchesOne(p, before, after, f, pass, index))
  }

  ghost predicate MatchesOne(p: Problem, before: Progress, after: Progress, f: Fingerprint, pass: nat, index: nat) {
    && Deserves(p, before, f, pass, index) && after.used == before.used[index := true]
    && |after.matches| == |before.matches| + 1 && before.matches <= after.matches
    && MadeFor(p, before, after.matches[|before.matches|], f, index)
    && AnchorIsKept(before.anchors, after.anchors, after.matches[|before.matches|])
  }

  /** A match anchors the semantic id of its symbol, if it has one and that has no anchor yet. */
  ghost predicate AnchorIsKept(before: seq<Anchor>, after: seq<Anchor>, m: SymbolMatch) {
    var id := m.original.semanticId;
    after == if id > 0 && (forall a :: a in before ==> a.semanticId != id) then before + [Anchor(id, m.newRva)]
             else before
  }

  lemma AnchorsAreKept(before: seq<Anchor>, m: SymbolMatch)
    ensures AnchorIsKept(before, AnchorsWith(before, m), m)
  {
  }

  /** The match names the function and the candidate, and says how sure it is. */
  ghost predicate MadeFor(p: Problem, before: Progress, m: SymbolMatch, f: Fingerprint, index: nat)
    requires f.symbol < |p.symbols| && index < |p.candidates|
  {
    var best := p.score(f, p.candidates[index], before.anchors);
    && m.original == p.symbols[f.symbol] && m.newRva == p.candidates[index].rva && !m.source.PeExport?
    && (m.source.Signature? <==> IsSameCode(f, p.candidates[index]))
    && (m.source.Signature? ==> m.classification.Exact? && m.confidence == 1.0)
    && (m.source.Heuristic? ==> m.confidence == best)
    && (m.source.Heuristic? && best >= 0.999 ==> m.classification.Exact?)
    && (m.source.Heuristic? && best < 0.999 ==>
          m.classification == if best >= p.options.certainThreshold then Certain else Probable)
  }

  /**
   Main result for a turn: an unmatched old function is matched exactly when its best free candidate has
   the same signature, a near perfect score, or enough score and lead for the pass.
   */
  lemma TurnMatches(p: Problem, before: Progress, after: Progress, f: Fingerprint, pass: nat)
    requires Turn(p, before, after, f, pass)
    ensures TurnIs(p, before, after, f, pass)
  {
    hide Ranks, IsBestFree, Leads, AnchorsWith, AnchorIsKept;
    var best, second, index :| TurnBy(p, before, after, f, pass, best, second, index);
    RankedIsBest(p, before, f, best, second, index);
    if !IsMatched(before.matches, f.symbol) && best >= 0.0 && f.symbol < |p.symbols| {
      LeadIsMargin(p, before, f, best, second, index, p.options.ambiguityMargin);
      if Deserves(p, before, f, pass, index) {
        AnchorsAreKept(before.anchors, after.matches[|before.matches|]);
        assert MatchesOne(p, before, after, f, pass, index);
      }
    }
  }

  // ------------------------------------------------------------ whole passes

  /** The turn of the `i`-th function in a pass. */
  lemma {:induction false} TurnOf(p: Problem, before: Progress, fingerprints: seq<Fingerprint>, pass: nat,
                                  after: Progress, i: nat)
    returns (now: Progress, next: Progress)
    requires PassLeads(p, before, fingerprints, pass, after) && i < |fingerprints|
    ensures PassLeads(p, before, fingerprints[..i], pass, now) && TurnIs(p, now, next, fingerprints[i], pass)
    ensures before.matches <= now.matches && now.matches <= next.matches && next.matches <= after.matches
    decreases |fingerprints|
  {
    hide Turn, TurnIs;
    var last := |fingerprints| - 1;
    var middle :| PassLeads(p, before, fingerprints[..last], pass, middle)
               && Turn(p, middle, after, fingerprints[last], pass);
    TurnMatches(p, middle, after, fingerprints[last], pass);
    TurnKeeps(p, middle, after, fingerprints[last], pass);
    if i == last {
      now, next := middle, after;
      PassKeeps(p, before, fingerprints[..last], pass, middle);
    } else {
      assert fingerprints[..last][..i] == fingerprints[..i];
      now, next := TurnOf(p, before, fingerprints[..last], pass, middle, i);
    }
  }

  lemma TurnKeeps(p: Problem, before: Progress, after: Progress, f: Fingerprint, pass: nat)
    requires TurnIs(p, before, after, f, pass)
    ensures before.matches <= after.matches
  {
  }

  lemma {:induction false} PassKeeps(p: Problem, before: Progress, fingerprints: seq<Fingerprint>, pass: nat,
                                     after: Progress)
    requires PassLeads(p, before, fingerprints, pass, after)
    ensures before.matches <= after.matches
    decreases |fingerprints|
  {
    hide Turn, TurnIs;
    if fingerprints != [] {
      var last := |fingerprints| - 1;
      var middle :| PassLeads(p, before, fingerprints[..last], pass, middle)
                 && Turn(p, middle, after, fingerprints[last], pass);
      PassKeeps(p, before, fingerprints[..last], pass, middle);
      TurnMatches(p, middle, after, fingerprints[last], pass);
      TurnKeeps(p, middle, after, fingerprints[last], pass);
    }
  }

  /** In a pass, whoever deserves it at its turn is matched. */
  lemma DeservingIsMatched(p: Problem, before: Progress, fingerprints: seq<Fingerprint>, pass: nat, after: Progress,
                           i: nat)
    requires PassLeads(p, before, fingerprints, pass, after) && i < |fingerprints|
    requires forall k :: 0 <= k < |p.symbols| ==> p.symbols[k].id == k
    ensures exists now :: PassLeads(p, before, fingerprints[..i], pass, now)
                       && ((exists index: nat :: Deserves(p, now, fingerprints[i], pass, index))
                             ==> IsMatched(after.matches, fingerprints[i].symbol))
  {
    hide PassLeads, Deserves;
    var now, next := TurnOf(p, before, fingerprints, pass, after, i);
    if IsMatched(now.matches, fingerprints[i].symbol) {
      StillMatched(now.matches, after.matches, fingerprints[i].symbol);
    } else if exists index: nat :: Deserves(p, now, fingerprints[i], pass, index) {
      MatchedNow(p, now, next, fingerprints[i], pass);
      StillMatched(next.matches, after.matches, fingerprints[i].symbol);
    }
  }

  lemma StillMatched(before: seq<SymbolMatch>, after: seq<SymbolMatch>, id: nat)
    requires before <= after && IsMatched(before, id)
    ensures IsMatched(after, id)
  {
    var i :| 0 <= i < |before| && before[i].original.id == id;
    assert after[i] == before[i];
  }

  lemma MatchedNow(p: Problem, now: Progress, next: Progress, f: Fingerprint, pass: nat)
    requires TurnIs(p, now, next, f, pass) && !IsMatched(now.matches, f.symbol)
    requires exists index: nat :: Deserves(p, now, f, pass, index)
    requires forall k :: 0 <= k < |p.symbols| ==> p.symbols[k].id == k
    ensures IsMatched(next.matches, f.symbol)
  {
    hide IsBestFree, Leads;
    var index: nat :| MatchesOne(p, now, next, f, pass, index);
    assert next.matches[|now.matches|].original.id == f.symbol;
  }

  // ------------------------------------------------------------ kinds of matches

  /** Matches added to what was there before are all of a kind a pass can make. */
  ghost predicate AddsOnly(p: Problem, before: seq<SymbolMatch>, after: seq<SymbolMatch>, pass: nat) {
    && before <= after
    && forall i {:trigger after[i]} :: |before| <= i < |after| ==> IsOfPass(p, after[i], pass)
  }

  /** Exact or Certain, and Probable in the last pass alone; what each says about the score. */
  predicate IsOfPass(p: Problem, m: SymbolMatch, pass: nat) {
    && !m.source.PeExport?
    && (m.classification == Exact || m.classification == Certain || (pass == 2 && m.classification == Probable))
    && (m.classification == Exact ==> m.confidence >= 0.999)
    && (m.classification == Certain ==> p.options.certainThreshold <= m.confidence < 0.999)
    && (m.classification == Probable ==> p.options.probableThreshold <= m.confidence < p.options.certainThreshold)
  }

  lemma TurnAdds(p: Problem, before: Progress, after: Progress, f: Fingerprint, pass: nat)
    requires TurnIs(p, before, after, f, pass)
    ensures AddsOnly(p, before.matches, after.matches, pass)
  {
    hide IsBestFree, Leads;
  }

  lemma {:induction false} PassAdds(p: Problem, before: Progress, fingerprints: seq<Fingerprint>, pass: nat,
                                    after: Progress)
    requires PassLeads(p, before, fingerprints, pass, after)
    ensures AddsOnly(p, before.matches, after.matches, pass)
    decreases |fingerprints|
  {
    hide Turn, TurnIs;
    if fingerprints != [] {
      var last := |fingerprints| - 1;
      var middle :| PassLeads(p, before, fingerprints[..last], pass, middle)
                 && Turn(p, middle, after, fingerprints[last], pass);
      PassAdds(p, before, fingerprints[..last], pass, middle);
      TurnMatches(p, middle, after, fingerprints[last], pass);
      TurnAdds(p, middle, after, fingerprints[last], pass);
      assert forall i :: 0 <= i < |middle.matches| ==> after.matches[i] == middle.matches[i];
    }
  }

  /**
   Main result for the passes: the first two add only Exact and Certain matches; Probable ones appear in
   the third.
   */
  lemma OnlyTheLastTakesProbable(p: Problem, before: Progress, fingerprints: seq<Fingerprint>, after: Progress)
    returns (first: Progress, second: Progress)
    requires ThreePassesLead(p, before, fingerprints, after)
    ensures PassLeads(p, before, fingerprints, 0, first) && PassLeads(p, first, fingerprints, 1, second)
    ensures PassLeads(p, second, fingerprints, 2, after)
    ensures before.matches <= first.matches && first.matches <= second.matches && second.matches <= after.matches
    ensures forall i :: |before.matches| <= i < |second.matches| ==>
      second.matches[i].classification == Exact || second.matches[i].classification == Certain
    ensures forall i :: |second.matches| <= i < |after.matches| ==> IsOfPass(p, after.matches[i], 2)
  {
    hide PassLeads;
    first, second :|
      && PassLeads(p, before, fingerprints, 0, first)
      && PassLeads(p, first, fingerprints, 1, second)
      && PassLeads(p, second, fingerprints, 2, after);
    PassAdds(p, before, fingerprints, 0, first);
    PassAdds(p, first, fingerprints, 1, second);
    PassAdds(p, second, fingerprints, 2, after);
    assert forall i :: 0 <= i < |first.matches| ==> second.matches[i] == first.matches[i];
  }

  // ------------------------------------------------------------ exports

  /** A named export that is not forwarded, of a symbol the old database knows by a semantic id. */
  ghost predicate Counts(e: Export, symbol: OldSymbol) {
    e == Export(true, false, Some(symbol), e.rva) && symbol.semanticId > 0
  }

  /** `e` stands in the list, and no export in front of it counts for the same semantic id. */
  ghost predicate IsFirstFor(exports: seq<Export>, k: nat, symbol: OldSymbol) {
    && k < |exports| && Counts(exports[k], symbol)
    && forall j, other :: 0 <= j < k && Counts(exports[j], other) ==> other.semanticId != symbol.semanticId
  }

  lemma KnownCounts(e: Export)
    ensures IsKnown(e) <==> e.symbol.Some? && Counts(e, e.symbol.value)
    ensures forall symbol :: Counts(e, symbol) ==> e.symbol == Some(symbol)
  {
  }

  /** Which candidates the exports claim. */
  lemma {:induction false} ClaimedCandidates(candidates: seq<Fingerprint>, exports: seq<Export>, j: nat)
    requires j < |candidates|
    ensures AllClaimed(candidates, exports).used[j] <==>
      exists k, symbol :: 0 <= k < |exports| && Counts(exports[k], symbol) && exports[k].rva == candidates[j].rva
  {
    hide Counts, IsKnown;
    if exports != [] {
      var front, last := exports[..|exports| - 1], exports[|exports| - 1];
      ClaimedCandidates(candidates, front, j);
      KnownCounts(last);
      assert forall k :: 0 <= k < |front| ==> front[k] == exports[k];
      if IsKnown(last) && last.rva == candidates[j].rva {
        assert HasAddress(candidates, last.rva);
        assert Counts(exports[|exports| - 1], last.symbol.value);
      }
    }
  }

  /** Which matches the exports make: each export that counts and has a candidate makes its own. */
  lemma {:induction false} ClaimedMatches(candidates: seq<Fingerprint>, exports: seq<Export>, m: SymbolMatch)
    ensures m in AllClaimed(candidates, exports).matches <==>
      && m == SymbolMatch(m.original, m.newRva, 1.0, Exact, PeExport) && HasAddress(candidates, m.newRva)
      && exists k :: 0 <= k < |exports| && Counts(exports[k], m.original) && exports[k].rva == m.newRva
  {
    hide Counts, IsKnown;
    if exports != [] {
      var front, last := exports[..|exports| - 1], exports[|exports| - 1];
      ClaimedMatches(candidates, front, m);
      KnownCounts(last);
      assert forall k :: 0 <= k < |front| ==> front[k] == exports[k];
      if IsKnown(last) {
        assert Counts(exports[|exports| - 1], last.symbol.value);
      }
    }
  }

  /** A semantic id has an anchor exactly when an export counts for it. */
  lemma {:induction false} AnchoredIds(candidates: seq<Fingerprint>, exports: seq<Export>, id: nat)
    ensures IsAnchored(AllClaimed(candidates, exports).anchors, id) <==>
      exists k, symbol :: 0 <= k < |exports| && Counts(exports[k], symbol) && symbol.semanticId == id
  {
    hide Counts, IsKnown;
    if exports != [] {
      var front, last := exports[..|exports| - 1], exports[|exports| - 1];
      var anchors := AllClaimed(candidates, front).anchors;
      AnchoredIds(candidates, front, id);
      KnownCounts(last);
      assert forall k :: 0 <= k < |front| ==> front[k] == exports[k];
      if IsKnown(last) {
        AnchorAdded(anchors, last.symbol.value.semanticId, last.rva, id);
        assert Counts(exports[|exports| - 1], last.symbol.value);
      }
    }
  }

  lemma AnchorAdded(anchors: seq<Anchor>, semanticId: nat, rva: nat, id: nat)
    ensures IsAnchored(WithAnchor(anchors, semanticId, rva), id) <==> IsAnchored(anchors, id) || id == semanticId
  {
    AnchorsGrow(anchors, Anchor(semanticId, rva));
  }

  /** The first export that counts for an id in a longer list. */
  lemma FirstInLonger(exports: seq<Export>, k: nat, symbol: OldSymbol)
    requires exports != []
    ensures var front := exports[..|exports| - 1];
            IsFirstFor(exports, k, symbol) <==>
              if k == |front| then
                && Counts(exports[k], symbol)
                && !exists j, other ::
                     0 <= j < |front| && Counts(front[j], other) && other.semanticId == symbol.semanticId
              else IsFirstFor(front, k, symbol)
  {
    hide Counts;
    var front := exports[..|exports| - 1];
    assert forall j :: 0 <= j < |front| ==> front[j] == exports[j];
  }

  /** The anchor is that of the first export that counts for its semantic id. */
  ghost predicate IsAnchorOf(exports: seq<Export>, a: Anchor) {
    exists k: nat, symbol :: IsFirstFor(exports, k, symbol) && a == Anchor(symbol.semanticId, exports[k].rva)
  }

  lemma AnchorsOfLonger(exports: seq<Export>, a: Anchor)
    requires exports != []
    ensures var n := |exports| - 1;
            IsAnchorOf(exports, a) <==>
              || IsAnchorOf(exports[..n], a)
              || (exists symbol :: IsFirstFor(exports, n, symbol) && a == Anchor(symbol.semanticId, exports[n].rva))
  {
    hide Counts, IsFirstFor;
    var n, front := |exports| - 1, exports[..|exports| - 1];
    forall k: nat, symbol
      ensures k < n ==> (IsFirstFor(exports, k, symbol) <==> IsFirstFor(front, k, symbol))
      ensures IsFirstFor(front, k, symbol) ==> k < n
      ensures IsFirstFor(exports, k, symbol) ==> k <= n
    {
      FirstInLonger(exports, k, symbol);
      FirstIsInside(front, k, symbol);
      FirstIsInside(exports, k, symbol);
    }
    if IsAnchorOf(front, a) {
      var k: nat, symbol :| IsFirstFor(front, k, symbol) && a == Anchor(symbol.semanticId, front[k].rva);
      assert IsFirstFor(exports, k, symbol) && exports[k] == front[k];
    }
    if IsAnchorOf(exports, a) {
      var k: nat, symbol :| IsFirstFor(exports, k, symbol) && a == Anchor(symbol.semanticId, exports[k].rva);
      assert k < n ==> IsFirstFor(front, k, symbol) && front[k] == exports[k];
    }
  }

  /** Which addresses the exports anchor: the first export that counts for a semantic id decides. */
  lemma {:induction false} ClaimedAnchors(candidates: seq<Fingerprint>, exports: seq<Export>, a: Anchor)
    ensures a in AllClaimed(candidates, exports).anchors <==> IsAnchorOf(exports, a)
  {
    hide Counts, IsKnown, IsFirstFor, WithAnchor;
    if exports != [] {
      var n, front, last := |exports| - 1, exports[..|exports| - 1], exports[|exports| - 1];
      var anchors := AllClaimed(candidates, front).anchors;
      ClaimedAnchors(candidates, front, a);
      AnchorsOfLonger(exports, a);
      hide IsAnchorOf;
      KnownCounts(last);
      forall symbol ensures IsFirstFor(exports, n, symbol) ==> Counts(last, symbol) {
        FirstIsInside(exports, n, symbol);
      }
      if IsKnown(last) {
        var symbol := last.symbol.value;
        AnchoredIds(candidates, front, symbol.semanticId);
        FirstInLonger(exports, n, symbol);
        LastAnchor(anchors, symbol.semanticId, last.rva, a);
      }
    } else {
      forall k: nat, symbol ensures !IsFirstFor(exports, k, symbol) {
        FirstIsInside(exports, k, symbol);
      }
    }
  }

  lemma FirstIsInside(exports: seq<Export>, k: nat, symbol: OldSymbol)
    ensures IsFirstFor(exports, k, symbol) ==> k < |exports| && Counts(exports[k], symbol)
  {
  }

  lemma LastAnchor(anchors: seq<Anchor>, semanticId: nat, rva: nat, a: Anchor)
    ensures a in WithAnchor(anchors, semanticId, rva) <==>
      a in anchors || (!IsAnchored(anchors, semanticId) && a == Anchor(semanticId, rva))
  {
  }

  /** What exports claim is all theirs. */
  lemma {:induction false} ClaimsAreExports(candidates: seq<Fingerprint>, exports: seq<Export>)
    ensures forall i :: 0 <= i < |AllClaimed(candidates, exports).matches| ==>
      var m := AllClaimed(candidates, exports).matches[i];
      m.source.PeExport? && m.classification.Exact? && m.confidence == 1.0
  {
    if exports != [] {
      ClaimsAreExports(candidates, exports[..|exports| - 1]);
    }
  }

  /** Main result for the whole recovery: every match in the answer is Exact, Certain or Probable, as its score says. */
  lemma RecoveredAreGood(p: Problem, exports: seq<Export>, fingerprints: seq<Fingerprint>, r: Recovered)
    requires RecoversTo(p, exports, fingerprints, r)
    ensures forall i :: 0 <= i < |r.matches| ==>
      (if r.matches[i].source.PeExport? then r.matches[i].classification.Exact? && r.matches[i].confidence == 1.0
       else IsOfPass(p, r.matches[i], 2))
  {
    hide AllClaimed, ThreePassesLead, PassLeads;
    var start := AllClaimed(p.candidates, exports);
    var end :| ThreePassesLead(p, start, fingerprints, end)
            && r == Recovered(Sorted(end.matches, ByConfidence()), end.anchors);
    ClaimsAreExports(p.candidates, exports);
    AllOfPass(p, start, fingerprints, end);
    forall i | 0 <= i < |r.matches|
      ensures if r.matches[i].source.PeExport? then r.matches[i].classification.Exact? && r.matches[i].confidence == 1.0
              else IsOfPass(p, r.matches[i], 2)
    {
      SortedMembers(end.matches, ByConfidence(), r.matches[i]);
      var k :| 0 <= k < |end.matches| && end.matches[k] == r.matches[i];
      if k < |start.matches| {
        assert end.matches[k] == start.matches[k];
      }
    }
  }

  lemma AllOfPass(p: Problem, before: Progress, fingerprints: seq<Fingerprint>, after: Progress)
    requires ThreePassesLead(p, before, fingerprints, after)
    ensures AddsOnly(p, before.matches, after.matches, 2)
  {
    hide PassLeads;
    var first, second :|
      && PassLeads(p, before, fingerprints, 0, first)
      && PassLeads(p, first, fingerprints, 1, second)
      && PassLeads(p, second, fingerprints, 2, after);
    PassAdds(p, before, fingerprints, 0, first);
    PassAdds(p, first, fingerprints, 1, second);
    PassAdds(p, second, fingerprints, 2, after);
    assert forall i :: 0 <= i < |first.matches| ==> after.matches[i] == second.matches[i] == first.matches[i];
    assert forall i :: 0 <= i < |second.matches| ==> after.matches[i] == second.matches[i];
  }
}
