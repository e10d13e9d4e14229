/**
 Recovering symbols in a new version of an image: function boundaries are discovered, exports are
 matched by name, and three greedy passes match what is left by similarity.  Fingerprints and the
 similarity score are taken as given; whatever they are, the result is an assignment.
 */
module SymbolMatcher {
  import opened Core
  import opened Sorting
  import Vector

  // ------------------------------------------------------------ function boundaries

  datatype Boundary = Boundary(rva: nat, size: nat)

  predicate Rising(bounds: seq<Boundary>) { forall i, j :: 0 <= i < j < |bounds| ==> bounds[i].rva < bounds[j].rva }
  predicate Unique(bounds: seq<Boundary>) { forall i, j :: 0 <= i < j < |bounds| ==> bounds[i].rva != bounds[j].rva }

  /** Which proposals count: inside the image and in an executable section. */
  predicate Eligible(rva: nat, imageSize: nat, executable: nat -> bool) { 0 < rva < imageSize && executable(rva) }

  /** The first size proposed for an address, 0 if none was. */
  function FirstSize(proposed: seq<Boundary>, rva: nat): nat {
    if proposed == [] then 0
    else
      var earlier := FirstSize(proposed[..|proposed| - 1], rva);
      var last := proposed[|proposed| - 1];
      if earlier == 0 && last.rva == rva then last.size else earlier
  }

  /** `bounds` lists the eligible proposals, each address once, with the first size given for it. */
  ghost predicate Lists(bounds: seq<Boundary>, proposed: seq<Boundary>, imageSize: nat, executable: nat -> bool) {
    && Unique(bounds)
    && (forall i :: 0 <= i < |bounds| ==> Eligible(bounds[i].rva, imageSize, executable))
    && (forall i :: 0 <= i < |bounds| ==> bounds[i].size == FirstSize(proposed, bounds[i].rva))
    && (forall k :: 0 <= k < |proposed| && Eligible(proposed[k].rva, imageSize, executable) ==>
          Listed(bounds, proposed[k].rva))
    && (forall i :: 0 <= i < |bounds| ==> Listed(proposed, bounds[i].rva))
  }

  predicate Listed(bounds: seq<Boundary>, rva: nat) { exists i :: 0 <= i < |bounds| && bounds[i].rva == rva }

  lemma FirstSizeOne(proposed: seq<Boundary>, last: Boundary, rva: nat)
    ensures FirstSize(proposed + [last], rva)
         == if FirstSize(proposed, rva) == 0 && last.rva == rva then last.size else FirstSize(proposed, rva)
  {
    assert (proposed + [last])[..|proposed|] == proposed;
  }

  lemma {:induction false} NeverProposed(proposed: seq<Boundary>, rva: nat)
    requires !Listed(proposed, rva)
    ensures FirstSize(proposed, rva) == 0
  {
    if proposed != [] {
      var front := proposed[..|proposed| - 1];
      assert forall i :: 0 <= i < |front| ==> front[i] == proposed[i];
      NeverProposed(front, rva);
      assert proposed[|proposed| - 1].rva != rva;
    }
  }

  /** Adds one proposal to the list. */
  method Add(bounds: seq<Boundary>, proposal: Boundary, imageSize: nat, executable: nat -> bool,
             ghost proposed: seq<Boundary>)
    returns (after: seq<Boundary>)
    requires Lists(bounds, proposed, imageSize, executable)
    ensures Lists(after, proposed + [proposal], imageSize, executable)
  {
    hide FirstSize;
    forall rva ensures FirstSize(proposed + [proposal], rva)
      == if FirstSize(proposed, rva) == 0 && proposal.rva == rva then proposal.size else FirstSize(proposed, rva)
    {
      FirstSizeOne(proposed, proposal, rva);
    }
    forall rva ensures Listed(proposed + [proposal], rva) <==> Listed(proposed, rva) || proposal.rva == rva {
      ListedOne(proposed, proposal, rva);
    }
    if proposal.rva == 0 || proposal.rva >= imageSize || !executable(proposal.rva) {
      return bounds;
    }
    for i := 0 to |bounds|
      invariant forall k :: 0 <= k < i ==> bounds[k].rva != proposal.rva
    {
      if bounds[i].rva == proposal.rva {
        after := bounds;
        if bounds[i].size == 0 && proposal.size != 0 {
          after := bounds[i := bounds[i].(size := proposal.size)];
          forall rva ensures Listed(after, rva) <==> Listed(bounds, rva) {
            SameAddresses(bounds, after, rva);
          }
        }
        return;
      }
    }
    assert !Listed(proposed, proposal.rva);
    NeverProposed(proposed, proposal.rva);
    after := bounds + [proposal];
    forall rva ensures Listed(after, rva) <==> Listed(bounds, rva) || proposal.rva == rva {
      ListedOne(bounds, proposal, rva);
    }
  }

  lemma ListedOne(bounds: seq<Boundary>, last: Boundary, rva: nat)
    ensures Listed(bounds + [last], rva) <==> Listed(bounds, rva) || last.rva == rva
  {
    var all := bounds + [last];
    if Listed(bounds, rva) {
      var i :| 0 <= i < |bounds| && bounds[i].rva == rva;
      assert all[i].rva == rva;
    }
    if last.rva == rva {
      assert all[|bounds|].rva == rva;
    }
  }

  lemma SameAddresses(a: seq<Boundary>, b: seq<Boundary>, rva: nat)
    requires |a| == |b| && forall i :: 0 <= i < |a| ==> a[i].rva == b[i].rva
    ensures Listed(a, rva) <==> Listed(b, rva)
  {
  }

  function ByAddress(): (Boundary, Boundary) -> bool { (a: Boundary, b: Boundary) => a.rva < b.rva }

  lemma {:induction false} InsertKeepsUnique(sorted: seq<Boundary>, key: Boundary)
    requires Unique(sorted) && !Listed(sorted, key.rva)
    ensures Unique(Insert(sorted, key, ByAddress()))
    ensures forall rva :: Listed(Insert(sorted, key, ByAddress()), rva) <==> Listed(sorted, rva) || key.rva == rva
  {
    var n := |sorted|;
    if n == 0 || !ByAddress()(key, sorted[n - 1]) {
      forall rva ensures Listed(sorted + [key], rva) <==> Listed(sorted, rva) || key.rva == rva {
        ListedOne(sorted, key, rva);
      }
      assert forall i :: 0 <= i < n ==> sorted[i].rva != key.rva;
    } else {
      var front, last := sorted[..n - 1], sorted[n - 1];
      assert sorted == front + [last];
      forall rva ensures Listed(sorted, rva) <==> Listed(front, rva) || last.rva == rva {
        ListedOne(front, last, rva);
      }
      InsertKeepsUnique(front, key);
      var r := Insert(front, key, ByAddress());
      forall rva ensures Listed(r + [last], rva) <==> Listed(r, rva) || last.rva == rva {
        ListedOne(r, last, rva);
      }
      assert !Listed(r, last.rva) by {
        assert forall i :: 0 <= i < |front| ==> front[i].rva != last.rva;
      }
      assert forall i :: 0 <= i < |r| ==> r[i].rva != last.rva;
    }
  }

  lemma {:induction false} SortKeepsUnique(bounds: seq<Boundary>)
    requires Unique(bounds)
    ensures Unique(Sorted(bounds, ByAddress()))
    ensures forall rva :: Listed(Sorted(bounds, ByAddress()), rva) <==> Listed(bounds, rva)
  {
    if bounds != [] {
      var front, last := bounds[..|bounds| - 1], bounds[|bounds| - 1];
      assert bounds == front + [last];
      SortKeepsUnique(front);
      assert forall i :: 0 <= i < |front| ==> front[i].rva != last.rva;
      InsertKeepsUnique(Sorted(front, ByAddress()), last);
      forall rva ensures Listed(bounds, rva) <==> Listed(front, rva) || last.rva == rva {
        ListedOne(front, last, rva);
      }
    }
  }

  lemma SortRises(bounds: seq<Boundary>)
    requires Unique(bounds)
    ensures Rising(Sorted(bounds, ByAddress()))
  {
    SortKeepsUnique(bounds);
    SortedOrders(bounds, ByAddress());
    var sorted := Sorted(bounds, ByAddress());
    forall i, j | 0 <= i < j < |sorted| ensures sorted[i].rva < sorted[j].rva {
      assert !ByAddress()(sorted[j], sorted[i]);
    }
  }

  /** Where the function at `i` must end: at the next one, or at the end of the image. */
  function NextStart(bounds: seq<Boundary>, i: nat, imageSize: nat): nat
    requires i < |bounds|
  {
    if i + 1 < |bounds| then bounds[i + 1].rva else imageSize
  }

  /** The size given for an address, or the distance to the next function. */
  function FilledSize(bounds: seq<Boundary>, i: nat, given: nat, imageSize: nat): int
    requires i < |bounds|
  {
    if given != 0 then given else NextStart(bounds, i, imageSize) - bounds[i].rva
  }

  /** Gives every unsized function the distance to the next one. */
  method FillSizes(sorted: seq<Boundary>, imageSize: nat) returns (bounds: seq<Boundary>)
    requires Rising(sorted) && forall i :: 0 <= i < |sorted| ==> sorted[i].rva < imageSize
    ensures |bounds| == |sorted| && forall i :: 0 <= i < |bounds| ==> bounds[i].rva == sorted[i].rva
    ensures forall i :: 0 <= i < |bounds| ==> 0 < bounds[i].size == FilledSize(sorted, i, sorted[i].size, imageSize)
  {
    bounds := sorted;
    for i := 0 to |sorted|
      invariant |bounds| == |sorted| && forall k :: 0 <= k < |sorted| ==> bounds[k].rva == sorted[k].rva
      invariant forall k :: 0 <= k < i ==> 0 < bounds[k].size == FilledSize(sorted, k, sorted[k].size, imageSize)
      invariant forall k :: i <= k < |sorted| ==> bounds[k] == sorted[k]
    {
      if bounds[i].size == 0 {
        var end := imageSize;
        if i + 1 < |bounds| {
          end := bounds[i + 1].rva;
        }
        if end > bounds[i].rva {
          bounds := bounds[i := bounds[i].(size := end - bounds[i].rva)];
        }
      }
    }
  }

  /** `bounds` lists every eligible start once, in rising order, with the size given for it or up to the next. */
  ghost predicate IsDiscovered(bounds: seq<Boundary>, proposed: seq<Boundary>, imageSize: nat, executable: nat -> bool)
  {
    && Rising(bounds)
    && (forall rva :: Listed(bounds, rva) <==> Listed(proposed, rva) && Eligible(rva, imageSize, executable))
    && (forall i :: 0 <= i < |bounds| ==>
          0 < bounds[i].size == FilledSize(bounds, i, FirstSize(proposed, bounds[i].rva), imageSize))
  }

  /**
   The boundaries of the new image, from all starts proposed in order.  Fails only when none is eligible;
   otherwise lists every eligible start once, in rising order, with a positive size.
   */
  method DiscoverBoundaries(proposed: seq<Boundary>, imageSize: nat, executable: nat -> bool)
    returns (r: Option<seq<Boundary>>)
    ensures r.None? <==> forall k :: 0 <= k < |proposed| ==> !Eligible(proposed[k].rva, imageSize, executable)
    ensures r.Some? ==> IsDiscovered(r.value, proposed, imageSize, executable)
  {
    hide FirstSize, Eligible;
    var found: seq<Boundary> := [];
    assert Lists(found, proposed[..0], imageSize, executable);
    for i := 0 to |proposed|
      invariant Lists(found, proposed[..i], imageSize, executable)
    {
      found := Add(found, proposed[i], imageSize, executable, proposed[..i]);
      assert proposed[..i + 1] == proposed[..i] + [proposed[i]];
    }
    assert proposed[..|proposed|] == proposed;
    AllListed(found, proposed, imageSize, executable);
    if found == [] {
      return None;
    }
    var sorted := Vector.SortList(found, ByAddress());
    SortRises(found);
    SortKeepsUnique(found);
    SortedFacts(found, proposed, imageSize, executable);
    var bounds := FillSizes(sorted, imageSize);
    forall rva ensures Listed(bounds, rva) <==> Listed(sorted, rva) {
      SameAddresses(sorted, bounds, rva);
    }
    return Some(bounds);
  }

  lemma AllListed(found: seq<Boundary>, proposed: seq<Boundary>, imageSize: nat, executable: nat -> bool)
    requires Lists(found, proposed, imageSize, executable)
    ensures forall rva :: Listed(found, rva) <==> Listed(proposed, rva) && Eligible(rva, imageSize, executable)
    ensures found == [] <==> forall k :: 0 <= k < |proposed| ==> !Eligible(proposed[k].rva, imageSize, executable)
  {
    hide FirstSize, Eligible;
    if found != [] {
      assert Listed(proposed, found[0].rva);
    }
  }

  lemma SortedFacts(found: seq<Boundary>, proposed: seq<Boundary>, imageSize: nat, executable: nat -> bool)
    requires Lists(found, proposed, imageSize, executable)
    ensures var sorted := Sorted(found, ByAddress());
            forall i :: 0 <= i < |sorted| ==>
              sorted[i].rva < imageSize && sorted[i].size == FirstSize(proposed, sorted[i].rva)
    ensures |Sorted(found, ByAddress())| == |found|
  {
    hide FirstSize;
    var sorted := Sorted(found, ByAddress());
    SortedPermutes(found, ByAddress());
    forall i | 0 <= i < |sorted|
      ensures sorted[i].rva < imageSize && sorted[i].size == FirstSize(proposed, sorted[i].rva)
    {
      SortedMembers(found, ByAddress(), sorted[i]);
      assert sorted[i] in found;
    }
  }

  /** The first proposal that gives an address a size. */
  predicate IsFirstSized(proposed: seq<Boundary>, k: nat, rva: nat) {
    && k < |proposed| && proposed[k].rva == rva && proposed[k].size > 0
    && forall j :: 0 <= j < k && proposed[j].rva == rva ==> proposed[j].size == 0
  }

  lemma {:induction false} FirstSizeIsFirst(proposed: seq<Boundary>, rva: nat)
    ensures forall k: nat :: IsFirstSized(proposed, k, rva) ==> FirstSize(proposed, rva) == proposed[k].size
    ensures FirstSize(proposed, rva) == 0 <==>
      forall k :: 0 <= k < |proposed| && proposed[k].rva == rva ==> proposed[k].size == 0
  {
    if proposed != [] {
      var n, front := |proposed| - 1, proposed[..|proposed| - 1];
      FirstSizeIsFirst(front, rva);
      assert forall k :: 0 <= k < n ==> front[k] == proposed[k];
      forall k: nat | IsFirstSized(proposed, k, rva) ensures FirstSize(proposed, rva) == proposed[k].size {
        if k < n {
          assert IsFirstSized(front, k, rva);
          assert FirstSize(front, rva) == front[k].size;
        }
      }
    }
  }

  /** A start inside the image and in executable code is never left out. */
  lemma EligibleAreListed(bounds: seq<Boundary>, proposed: seq<Boundary>, imageSize: nat, executable: nat -> bool,
                          k: nat)
    requires IsDiscovered(bounds, proposed, imageSize, executable)
    requires k < |proposed| && 0 < proposed[k].rva < imageSize && executable(proposed[k].rva)
    ensures exists i :: 0 <= i < |bounds| && bounds[i].rva == proposed[k].rva
  {
    assert Listed(proposed, proposed[k].rva) && Listed(bounds, proposed[k].rva);
  }

  /** A function has the first size given for it; one without ends where the next starts, or the image ends. */
  lemma UnsizedReachTheNext(bounds: seq<Boundary>, proposed: seq<Boundary>, imageSize: nat, executable: nat -> bool,
                            i: nat)
    requires IsDiscovered(bounds, proposed, imageSize, executable) && i < |bounds|
    ensures 0 < bounds[i].rva < imageSize && executable(bounds[i].rva)
    ensures forall k: nat :: IsFirstSized(proposed, k, bounds[i].rva) ==> bounds[i].size == proposed[k].size
    ensures (forall k :: 0 <= k < |proposed| && proposed[k].rva == bounds[i].rva ==> proposed[k].size == 0) ==>
      bounds[i].rva + bounds[i].size == if i == |bounds| - 1 then imageSize else bounds[i + 1].rva
  {
    hide FirstSize;
    FirstSizeIsFirst(proposed, bounds[i].rva);
    assert Listed(bounds, bounds[i].rva);
  }

  // ------------------------------------------------------------ matching

  datatype OldSymbol = OldSymbol(id: nat, semanticId: nat, isFunction: bool, rva: nat, size: nat)

  /** What the matcher compares of a function; `features` stands for everything only the score looks at. */
  datatype Fingerprint = Fingerprint(symbol: nat, semanticId: nat, rva: nat, instructionHash: nat, cfgHash: nat,
                                     instructionCount: nat, features: nat)

  datatype Anchor = Anchor(semanticId: nat, newRva: nat)
  datatype Export = Export(named: bool, forwarded: bool, symbol: Option<OldSymbol>, rva: nat)

  datatype MatchClass = Rejected | Ambiguous | Probable | Certain | Exact
  datatype MatchSource = PeExport | Signature | Heuristic

  datatype SymbolMatch =
    SymbolMatch(original: OldSymbol, newRva: nat, confidence: real, classification: MatchClass, source: MatchSource)

  datatype MatcherOptions = MatcherOptions(certainThreshold: real, probableThreshold: real, ambiguityMargin: real)

  type Score = (Fingerprint, Fingerprint, seq<Anchor>) -> real

  /**
   No match found by similarity shares its symbol or its address with any other match, of whatever
   source.  (Exports may: one address can be exported under two names.)
   */
  ghost predicate IsAssignment(matches: seq<SymbolMatch>) {
    forall i, j :: 0 <= i < |matches| && 0 <= j < |matches| && i != j && !matches[i].source.PeExport? ==>
      matches[i].original.id != matches[j].original.id && matches[i].newRva != matches[j].newRva
  }

  predicate DistinctAddresses(candidates: seq<Fingerprint>) {
    forall i, j :: 0 <= i < j < |candidates| ==> candidates[i].rva != candidates[j].rva
  }

  predicate DistinctIds(anchors: seq<Anchor>) {
    forall i, j :: 0 <= i < j < |anchors| ==> anchors[i].semanticId != anchors[j].semanticId
  }

  predicate IsAnchored(anchors: seq<Anchor>, semanticId: nat) {
    exists i :: 0 <= i < |anchors| && anchors[i].semanticId == semanticId
  }

  /** The anchors with one more, unless the semantic id has one already. */
  function WithAnchor(anchors: seq<Anchor>, semanticId: nat, newRva: nat): seq<Anchor> {
    if IsAnchored(anchors, semanticId) then anchors else anchors + [Anchor(semanticId, newRva)]
  }

  function Classification(score: real, margin: real, options: MatcherOptions): MatchClass {
    if score >= 0.999 then Exact
    else if margin < options.ambiguityMargin && score >= options.probableThreshold then Ambiguous
    else if score >= options.certainThreshold then Certain
    else if score >= options.probableThreshold then Probable
    else if score >= 0.60 then Ambiguous
    else Rejected
  }

  predicate SameSignature(a: Fingerprint, b: Fingerprint) {
    a.instructionHash == b.instructionHash && a.cfgHash == b.cfgHash && a.instructionCount == b.instructionCount
  }

  class Recovery {
    const candidates: seq<Fingerprint>
    const used: array<bool>
    var anchors: seq<Anchor>
    var matches: seq<SymbolMatch>

    ghost predicate Valid()
      reads this, used
    {
      && used.Length == |candidates| && DistinctAddresses(candidates)
      && DistinctIds(anchors) && IsAssignment(matches)
      && (forall i, j :: 0 <= i < |matches| && 0 <= j < |candidates| && !used[j] ==>
            matches[i].newRva != candidates[j].rva)
      && (forall i :: 0 <= i < |matches| && !matches[i].source.PeExport? && matches[i].original.semanticId != 0 ==>
            IsAnchored(anchors, matches[i].original.semanticId))
    }

    constructor (candidates: seq<Fingerprint>)
      requires DistinctAddresses(candidates)
      ensures Valid() && matches == [] && anchors == [] && fresh(used) && this.candidates == candidates
      ensures forall j :: 0 <= j < used.Length ==> !used[j]
    {
      this.candidates := candidates;
      used := new bool[|candidates|](_ => false);
      anchors, matches := [], [];
    }

    /** The first address recorded for a semantic id stays its address. */
    method AddAnchor(semanticId: nat, newRva: nat)
      requires Valid()
      modifies this`anchors
      ensures Valid() && old(anchors) <= anchors && IsAnchored(anchors, semanticId)
      ensures anchors == WithAnchor(old(anchors), semanticId, newRva)
    {
      for i := 0 to |anchors|
        invariant anchors == old(anchors) && forall k :: 0 <= k < i ==> anchors[k].semanticId != semanticId
      {
        if anchors[i].semanticId == semanticId {
          return;
        }
      }
      assert !IsAnchored(anchors, semanticId);
      AnchorsGrow(anchors, Anchor(semanticId, newRva));
      anchors := anchors + [Anchor(semanticId, newRva)];
    }

    /** An export whose name the old database knows anchors its symbol and claims the candidate at its address. */
    method ClaimExport(e: Export)
      requires Valid()
      requires forall i :: 0 <= i < |matches| ==> matches[i].source.PeExport?
      modifies this, used
      ensures Valid()
      ensures anchors == if IsKnown(e) then WithAnchor(old(anchors), e.symbol.value.semanticId, e.rva) else old(anchors)
      ensures matches == if IsKnown(e) && HasAddress(candidates, e.rva)
                         then old(matches) + [SymbolMatch(e.symbol.value, e.rva, 1.0, Exact, PeExport)]
                         else old(matches)
      ensures forall j :: 0 <= j < |candidates| ==>
        used[j] == (old(used[j]) || (IsKnown(e) && candidates[j].rva == e.rva))
    {
      if !e.named || e.forwarded {
        return;
      }
      if e.symbol.None? || e.symbol.value.semanticId == 0 {
        return;
      }
      AddAnchor(e.symbol.value.semanticId, e.rva);
      for i := 0 to |candidates|
        invariant Valid() && matches == old(matches)
        invariant anchors == WithAnchor(old(anchors), e.symbol.value.semanticId, e.rva)
        invariant forall k :: 0 <= k < |candidates| ==> used[k] == old(used[k])
        invariant forall k :: 0 <= k < i ==> candidates[k].rva != e.rva
      {
        if candidates[i].rva == e.rva {
          used[i] := true;
          matches := matches + [SymbolMatch(e.symbol.value, e.rva, 1.0, Exact, PeExport)];
          return;
        }
      }
    }

    /** `index` holds the best free candidate, the earliest of equals, and `second` is the best score of the others. */
    method FindBest(fingerprint: Fingerprint, score: Score) returns (best: real, second: real, index: nat)
      requires Valid()
      ensures Ranks(candidates, used[..], fingerprint, score, anchors, best, second, index)
    {
      best, second, index := -1.0, -1.0, 0;
      ghost var other: nat := 0;
      for j := 0 to |candidates|
        invariant best >= second >= -1.0 && (best == -1.0 ==> second == -1.0)
        invariant best > -1.0 ==>
          && index < j && !used[index] && score(fingerprint, candidates[index], anchors) == best
          && forall k :: 0 <= k < index && !used[k] ==> score(fingerprint, candidates[k], anchors) < best
        invariant forall k :: 0 <= k < j && !used[k] ==> score(fingerprint, candidates[k], anchors) <= best
        invariant best > -1.0 ==>
          forall k :: 0 <= k < j && !used[k] && k != index ==> score(fingerprint, candidates[k], anchors) <= second
        invariant second > -1.0 ==>
          other < j && !used[other] && other != index && score(fingerprint, candidates[other], anchors) == second
      {
        if !used[j] {
          var s := score(fingerprint, candidates[j], anchors);
          if s > best {
            other := index;
            second, best, index := best, s, j;
          } else if s > second {
            second := s;
            other := j;
          }
        }
      }
      assert second > -1.0 ==> !used[..][other];
    }

    /** Records a match by similarity. */
    method Accept(m: SymbolMatch, index: nat)
      requires Valid() && index < |candidates| && !used[index] && m.newRva == candidates[index].rva
      requires forall i :: 0 <= i < |matches| ==> matches[i].original.id != m.original.id
      requires !m.source.PeExport?
      modifies this, used
      ensures Valid() && old(anchors) <= anchors && matches == old(matches) + [m]
      ensures anchors == AnchorsWith(old(anchors), m)
      ensures forall j :: 0 <= j < |candidates| ==> used[j] == (old(used[j]) || j == index)
    {
      if m.original.semanticId != 0 {
        AddAnchor(m.original.semanticId, m.newRva);
      }
      matches := matches + [m];
      used[index] := true;
    }

    /** One old function in one pass: matched exactly when it is not yet and its best candidate gets a good verdict. */
    method Consider(fingerprint: Fingerprint, symbols: seq<OldSymbol>, pass: nat, score: Score, options: MatcherOptions)
      returns (ghost best: real, ghost second: real, ghost index: nat)
      requires Valid() && forall i :: 0 <= i < |symbols| ==> symbols[i].id == i
      modifies this, used
      ensures Valid() && old(anchors) <= anchors
      ensures Ranks(candidates, old(used[..]), fingerprint, score, old(anchors), best, second, index)
      ensures var verdict := Verdict(candidates, fingerprint, symbols, best, second, index, pass, options);
              var silent := IsMatched(old(matches), fingerprint.symbol) || verdict.None?;
              && (silent ==> matches == old(matches) && used[..] == old(used[..]) && anchors == old(anchors))
              && (!silent ==> matches == old(matches) + [verdict.value] && used[..] == old(used[..])[index := true])
              && (!silent ==> anchors == AnchorsWith(old(anchors), verdict.value))
    {
      var top, runnerUp, at := FindBest(fingerprint, score);
      best, second, index := top, runnerUp, at;
      for i := 0 to |matches|
        invariant matches == old(matches) && forall k :: 0 <= k < i ==> matches[k].original.id != fingerprint.symbol
      {
        if matches[i].original.id == fingerprint.symbol {
          return;
        }
      }
      if top < 0.0 {
        return;
      }
      assert !used[..][at];
      var margin := top - runnerUp;
      var exactSignature := SameSignature(fingerprint, candidates[at]);
      var classification := if exactSignature then Exact else Classification(top, margin, options);
      if fingerprint.symbol >= |symbols| {
        return;
      }
      if Acceptable(classification, pass) {
        var m := SymbolMatch(symbols[fingerprint.symbol], candidates[at].rva, if exactSignature then 1.0 else top,
                             classification, if exactSignature then Signature else Heuristic);
        Accept(m, at);
      }
    }
  }

  function AnchorsWith(anchors: seq<Anchor>, m: SymbolMatch): seq<Anchor> {
    if m.original.semanticId == 0 then anchors else WithAnchor(anchors, m.original.semanticId, m.newRva)
  }

  predicate IsKnown(e: Export) { e.named && !e.forwarded && e.symbol.Some? && e.symbol.value.semanticId != 0 }

  predicate HasAddress(candidates: seq<Fingerprint>, rva: nat) {
    exists i :: 0 <= i < |candidates| && candidates[i].rva == rva
  }

  predicate IsMatched(matches: seq<SymbolMatch>, id: nat) {
    exists i :: 0 <= i < |matches| && matches[i].original.id == id
  }

  /** The greedy choice among the free candidates; -1 stands for no score. */
  ghost predicate Ranks(candidates: seq<Fingerprint>, used: seq<bool>, fingerprint: Fingerprint, score: Score,
                        anchors: seq<Anchor>, best: real, second: real, index: nat)
    requires |used| == |candidates|
  {
    && best >= second >= -1.0 && (best == -1.0 ==> second == -1.0)
    && (forall j :: 0 <= j < |candidates| && !used[j] ==> score(fingerprint, candidates[j], anchors) <= best)
    && (best > -1.0 ==>
          && index < |candidates| && !used[index] && score(fingerprint, candidates[index], anchors) == best
          && (forall j :: 0 <= j < index && !used[j] ==> score(fingerprint, candidates[j], anchors) < best)
          && (forall j :: 0 <= j < |candidates| && !used[j] && j != index ==>
                score(fingerprint, candidates[j], anchors) <= second))
    && (second > -1.0 ==>
          exists j ::
            0 <= j < |candidates| && !used[j] && j != index && score(fingerprint, candidates[j], anchors) == second)
  }

  predicate Acceptable(classification: MatchClass, pass: nat) {
    classification == Certain || classification == Exact || (pass == 2 && classification == Probable)
  }

  /** The match to make, if the best candidate is good enough for the pass. */
  function Verdict(candidates: seq<Fingerprint>, fingerprint: Fingerprint, symbols: seq<OldSymbol>, best: real,
                   second: real, index: nat, pass: nat, options: MatcherOptions): Option<SymbolMatch>
    requires best > -1.0 ==> index < |candidates|
  {
    if best < 0.0 || fingerprint.symbol >= |symbols| then None
    else
      var exact := SameSignature(fingerprint, candidates[index]);
      var classification := if exact then Exact else Classification(best, best - second, options);
      if !Acceptable(classification, pass) then None
      else Some(SymbolMatch(symbols[fingerprint.symbol], candidates[index].rva, if exact then 1.0 else best,
                            classification, if exact then Signature else Heuristic))
  }

  /** What the free candidates and the score are determines the choice. */
  lemma RanksAreUnique(candidates: seq<Fingerprint>, used: seq<bool>, fingerprint: Fingerprint, score: Score,
                       anchors: seq<Anchor>, b1: real, s1: real, i1: nat, b2: real, s2: real, i2: nat)
    requires |used| == |candidates|
    requires Ranks(candidates, used, fingerprint, score, anchors, b1, s1, i1)
    requires Ranks(candidates, used, fingerprint, score, anchors, b2, s2, i2)
    ensures b1 == b2 && s1 == s2 && (b1 > -1.0 ==> i1 == i2)
  {
    if b1 > -1.0 {
      assert score(fingerprint, candidates[i1], anchors) <= b2;
    }
    if b2 > -1.0 {
      assert score(fingerprint, candidates[i2], anchors) <= b1;
    }
  }

  /** A match by score is never ambiguous: no other free candidate came within the margin, unless it is near perfect. */
  lemma AcceptedIsUnambiguous(candidates: seq<Fingerprint>, used: seq<bool>, fingerprint: Fingerprint,
                              symbols: seq<OldSymbol>, score: Score, anchors: seq<Anchor>, best: real, second: real,
                              index: nat, pass: nat, options: MatcherOptions)
    requires |used| == |candidates| && Ranks(candidates, used, fingerprint, score, anchors, best, second, index)
    requires Verdict(candidates, fingerprint, symbols, best, second, index, pass, options).Some?
    requires options.probableThreshold <= options.certainThreshold
    ensures var m := Verdict(candidates, fingerprint, symbols, best, second, index, pass, options).value;
            && (m.source.Signature? ==> SameSignature(fingerprint, candidates[index]))
            && (m.source.Heuristic? ==> m.confidence == best && (best >= 0.999 || best >= options.probableThreshold))
            && (m.source.Heuristic? && best < 0.999 ==>
                  forall j :: 0 <= j < |candidates| && !used[j] && j != index ==>
                    score(fingerprint, candidates[j], anchors) <= best - options.ambiguityMargin)
  {
  }

  lemma AnchorsGrow(anchors: seq<Anchor>, last: Anchor)
    ensures forall id :: IsAnchored(anchors, id) ==> IsAnchored(anchors + [last], id)
    ensures IsAnchored(anchors + [last], last.semanticId)
  {
    var all := anchors + [last];
    forall id | IsAnchored(anchors, id) ensures IsAnchored(all, id) {
      var i :| 0 <= i < |anchors| && anchors[i].semanticId == id;
      assert all[i].semanticId == id;
    }
    assert all[|anchors|] == last;
  }

  // ------------------------------------------------------------ the passes

  /** What stays fixed while matching, and what changes. */
  datatype Problem =
    Problem(candidates: seq<Fingerprint>, symbols: seq<OldSymbol>, score: Score, options: MatcherOptions)
  datatype Progress = Progress(matches: seq<SymbolMatch>, anchors: seq<Anchor>, used: seq<bool>)

  /** One old function considered in one pass. */
  ghost predicate Turn(p: Problem, before: Progress, after: Progress, fingerprint: Fingerprint, pass: nat) {
    exists best, second, index :: TurnBy(p, before, after, fingerprint, pass, best, second, index)
  }

  ghost predicate TurnBy(p: Problem, before: Progress, after: Progress, fingerprint: Fingerprint, pass: nat,
                         best: real, second: real, index: nat)
  {
    && |before.used| == |p.candidates|
    && Ranks(p.candidates, before.used, fingerprint, p.score, before.anchors, best, second, index)
    && after == Considered(p, before, fingerprint, pass, best, second, index)
  }

  function Considered(p: Problem, before: Progress, fingerprint: Fingerprint, pass: nat,
                      best: real, second: real, index: nat): Progress
    requires |before.used| == |p.candidates| && (best > -1.0 ==> index < |p.candidates|)
  {
    var verdict := Verdict(p.candidates, fingerprint, p.symbols, best, second, index, pass, p.options);
    if IsMatched(before.matches, fingerprint.symbol) || verdict.None? then before
    else
      Progress(before.matches + [verdict.value], AnchorsWith(before.anchors, verdict.value), before.used[index := true])
  }

  /** One pass over the old functions, in order. */
  ghost predicate PassLeads(p: Problem, before: Progress, fingerprints: seq<Fingerprint>, pass: nat, after: Progress)
    decreases |fingerprints|
  {
    if fingerprints == [] then before == after
    else exists middle {:trigger PassLeads(p, before, fingerprints[..|fingerprints| - 1], pass, middle)} ::
      && PassLeads(p, before, fingerprints[..|fingerprints| - 1], pass, middle)
      && Turn(p, middle, after, fingerprints[|fingerprints| - 1], pass)
  }

  ghost predicate ThreePassesLead(p: Problem, before: Progress, fingerprints: seq<Fingerprint>, after: Progress) {
    exists first, second ::
      && PassLeads(p, before, fingerprints, 0, first)
      && PassLeads(p, first, fingerprints, 1, second)
      && PassLeads(p, second, fingerprints, 2, after)
  }

  /** A turn has one outcome. */
  lemma TurnIsDetermined(p: Problem, before: Progress, a: Progress, b: Progress, fingerprint: Fingerprint, pass: nat)
    requires Turn(p, before, a, fingerprint, pass) && Turn(p, before, b, fingerprint, pass)
    ensures a == b
  {
    hide Ranks;
    var b1, s1, i1 :| TurnBy(p, before, a, fingerprint, pass, b1, s1, i1);
    var b2, s2, i2 :| TurnBy(p, before, b, fingerprint, pass, b2, s2, i2);
    RanksAreUnique(p.candidates, before.used, fingerprint, p.score, before.anchors, b1, s1, i1, b2, s2, i2);
  }

  /** Main result for the passes: given where they start, they can only end in one place. */
  lemma {:induction false} PassIsDetermined(p: Problem, before: Progress, fingerprints: seq<Fingerprint>, pass: nat,
                                            a: Progress, b: Progress)
    requires PassLeads(p, before, fingerprints, pass, a) && PassLeads(p, before, fingerprints, pass, b)
    ensures a == b
    decreases |fingerprints|
  {
    hide Turn;
    if fingerprints != [] {
      var front, last := fingerprints[..|fingerprints| - 1], fingerprints[|fingerprints| - 1];
      var m :| PassLeads(p, before, front, pass, m) && Turn(p, m, a, last, pass);
      var n :| PassLeads(p, before, front, pass, n) && Turn(p, n, b, last, pass);
      PassIsDetermined(p, before, front, pass, m, n);
      TurnIsDetermined(p, m, a, b, last, pass);
    }
  }

  // ------------------------------------------------------------ the whole recovery

  datatype Recovered = Recovered(matches: seq<SymbolMatch>, anchors: seq<Anchor>) | NoBoundaries | NoCandidate

  type BuildOld = OldSymbol -> Option<Fingerprint>
  type BuildNew = Boundary -> Option<Fingerprint>

  ghost predicate Describes(buildOld: BuildOld, buildNew: BuildNew) {
    && (forall s: OldSymbol :: buildOld(s).Some? ==> buildOld(s).value.symbol == s.id && buildOld(s).value.rva == s.rva)
    && (forall b: Boundary :: buildNew(b).Some? ==> buildNew(b).value.rva == b.rva)
  }

  function FingerprintsByAddress(): (Fingerprint, Fingerprint) -> bool {
    (a: Fingerprint, b: Fingerprint) => a.rva < b.rva
  }

  predicate IsSized(s: OldSymbol) { s.isFunction && s.rva != 0 && s.size != 0 }

  /** The old functions that can be fingerprinted, one per address. */
  function OldOf(symbols: seq<OldSymbol>, buildOld: BuildOld): seq<Fingerprint> {
    if symbols == [] then []
    else
      var front, s := OldOf(symbols[..|symbols| - 1], buildOld), symbols[|symbols| - 1];
      if IsSized(s) && !HasAddress(front, s.rva) && buildOld(s).Some? then front + [buildOld(s).value] else front
  }

  /** The first sized function at its address whose fingerprint can be built. */
  predicate IsFirstBuilt(symbols: seq<OldSymbol>, k: nat, buildOld: BuildOld) {
    && k < |symbols| && symbols[k].isFunction && symbols[k].rva > 0 && symbols[k].size > 0
    && buildOld(symbols[k]).Some?
    && forall j :: 0 <= j < k && IsSized(symbols[j]) && symbols[j].rva == symbols[k].rva ==> buildOld(symbols[j]).None?
  }

  predicate OldAddressesKept(buildOld: BuildOld, symbols: seq<OldSymbol>) {
    forall k :: 0 <= k < |symbols| && buildOld(symbols[k]).Some? ==> buildOld(symbols[k]).value.rva == symbols[k].rva
  }

  ghost predicate IsBuiltAt(symbols: seq<OldSymbol>, rva: nat, buildOld: BuildOld) {
    exists k :: 0 <= k < |symbols| && IsSized(symbols[k]) && buildOld(symbols[k]).Some? && symbols[k].rva == rva
  }

  ghost predicate IsFirstFingerprint(f: Fingerprint, symbols: seq<OldSymbol>, buildOld: BuildOld) {
    exists k: nat :: IsFirstBuilt(symbols, k, buildOld) && buildOld(symbols[k]) == Some(f)
  }

  /** One more old symbol. */
  lemma OneMoreSymbol(front: seq<OldSymbol>, last: OldSymbol, buildOld: BuildOld)
    ensures forall rva :: IsBuiltAt(front + [last], rva, buildOld) <==>
      IsBuiltAt(front, rva, buildOld) || (IsSized(last) && buildOld(last).Some? && last.rva == rva)
    ensures forall f :: IsFirstFingerprint(f, front + [last], buildOld) <==>
      IsFirstFingerprint(f, front, buildOld)
      || (IsSized(last) && buildOld(last) == Some(f) && !IsBuiltAt(front, last.rva, buildOld))
  {
    var symbols, n := front + [last], |front|;
    assert symbols[n] == last && forall k :: 0 <= k < n ==> symbols[k] == front[k];
    assert forall k: nat :: k < n ==> (IsFirstBuilt(symbols, k, buildOld) <==> IsFirstBuilt(front, k, buildOld));
    assert IsFirstBuilt(symbols, n, buildOld) <==>
      IsSized(last) && buildOld(last).Some? && !IsBuiltAt(front, last.rva, buildOld);
  }

  /** Exactly the first function at every address whose fingerprint can be built is fingerprinted. */
  lemma {:induction false} OldAreFirstBuilt(symbols: seq<OldSymbol>, buildOld: BuildOld)
    requires OldAddressesKept(buildOld, symbols)
    ensures forall f :: f in OldOf(symbols, buildOld) <==> IsFirstFingerprint(f, symbols, buildOld)
    ensures forall rva :: HasAddress(OldOf(symbols, buildOld), rva) <==> IsBuiltAt(symbols, rva, buildOld)
    ensures DistinctAddresses(OldOf(symbols, buildOld))
  {
    if symbols != [] {
      hide IsBuiltAt, IsFirstFingerprint, IsSized;
      var front, last := symbols[..|symbols| - 1], symbols[|symbols| - 1];
      assert symbols == front + [last];
      OldAreFirstBuilt(front, buildOld);
      OneMoreSymbol(front, last, buildOld);
      var before, after := OldOf(front, buildOld), OldOf(symbols, buildOld);
      if after != before {
        forall rva ensures HasAddress(after, rva) <==> HasAddress(before, rva) || rva == last.rva {
          assert rva == last.rva ==> after[|before|].rva == rva;
          assert forall i :: 0 <= i < |before| ==> after[i] == before[i];
        }
      }
    }
  }

  /** Fingerprints of the old functions, one per address, in address order. */
  method FingerprintOld(symbols: seq<OldSymbol>, buildOld: BuildOld) returns (sorted: seq<Fingerprint>)
    requires OldAddressesKept(buildOld, symbols)
    ensures sorted == Sorted(OldOf(symbols, buildOld), FingerprintsByAddress())
    ensures DistinctAddresses(sorted) && Ordered(sorted, FingerprintsByAddress())
  {
    var fingerprints: seq<Fingerprint> := [];
    for k := 0 to |symbols|
      invariant fingerprints == OldOf(symbols[..k], buildOld)
    {
      assert symbols[..k + 1][..k] == symbols[..k];
      var s := symbols[k];
      if s.isFunction && s.rva != 0 && s.size != 0 {
        var duplicate := false;
        for i := 0 to |fingerprints|
          invariant !duplicate && forall k :: 0 <= k < i ==> fingerprints[k].rva != s.rva
        {
          if fingerprints[i].rva == s.rva {
            duplicate := true;
            break;
          }
        }
        if !duplicate {
          var built := buildOld(s);
          if built.Some? {
            fingerprints := fingerprints + [built.value];
          }
        }
      }
    }
    assert symbols[..|symbols|] == symbols;
    sorted := Vector.SortList(fingerprints, FingerprintsByAddress());
    OldAreFirstBuilt(symbols, buildOld);
    SortedOrders(fingerprints, FingerprintsByAddress());
    SortedPermutes(fingerprints, FingerprintsByAddress());
    DistinctInAnyOrder(fingerprints, sorted);
  }

  /** The new functions that can be fingerprinted, in order. */
  function NewOf(bounds: seq<Boundary>, buildNew: BuildNew): seq<Fingerprint> {
    if bounds == [] then []
    else
      var built := buildNew(bounds[|bounds| - 1]);
      NewOf(bounds[..|bounds| - 1], buildNew) + if built.Some? then [built.value] else []
  }

  /** Exactly the functions whose fingerprint can be built are candidates, each at its own address. */
  lemma {:induction false} NewAreBuilt(bounds: seq<Boundary>, buildNew: BuildNew)
    requires Rising(bounds) && forall b: Boundary :: buildNew(b).Some? ==> buildNew(b).value.rva == b.rva
    ensures forall f :: f in NewOf(bounds, buildNew) <==>
      exists k :: 0 <= k < |bounds| && buildNew(bounds[k]) == Some(f)
    ensures DistinctAddresses(NewOf(bounds, buildNew))
  {
    if bounds != [] {
      var front, last := bounds[..|bounds| - 1], bounds[|bounds| - 1];
      NewAreBuilt(front, buildNew);
      var before := NewOf(front, buildNew);
      forall f
        ensures f in NewOf(bounds, buildNew) <==> exists k :: 0 <= k < |bounds| && buildNew(bounds[k]) == Some(f)
      {
        if f in before {
          var k :| 0 <= k < |front| && buildNew(front[k]) == Some(f);
          assert buildNew(bounds[k]) == Some(f);
        }
        if k :| 0 <= k < |bounds| && buildNew(bounds[k]) == Some(f) {
          assert k < |front| ==> buildNew(front[k]) == Some(f);
        }
      }
      forall i | 0 <= i < |before| ensures before[i].rva != last.rva {
        assert before[i] in before;
      }
    }
  }

  method FingerprintNew(bounds: seq<Boundary>, buildNew: BuildNew) returns (fingerprints: seq<Fingerprint>)
    ensures fingerprints == NewOf(bounds, buildNew)
  {
    fingerprints := [];
    for k := 0 to |bounds|
      invariant fingerprints == NewOf(bounds[..k], buildNew)
    {
      assert bounds[..k + 1][..k] == bounds[..k];
      var built := buildNew(bounds[k]);
      if built.Some? {
        fingerprints := fingerprints + [built.value];
      }
    }
    assert bounds[..|bounds|] == bounds;
  }

  /** What one export changes: it anchors its symbol and claims the candidate at its address. */
  function Claimed(candidates: seq<Fingerprint>, before: Progress, e: Export): Progress
    requires |before.used| == |candidates|
  {
    if !IsKnown(e) then before
    else
      var anchors := WithAnchor(before.anchors, e.symbol.value.semanticId, e.rva);
      if !HasAddress(candidates, e.rva) then before.(anchors := anchors)
      else Progress(before.matches + [SymbolMatch(e.symbol.value, e.rva, 1.0, Exact, PeExport)], anchors,
                    seq(|candidates|, j requires 0 <= j < |candidates| => before.used[j] || candidates[j].rva == e.rva))
  }

  function AllClaimed(candidates: seq<Fingerprint>, exports: seq<Export>): (p: Progress)
    ensures |p.used| == |candidates|
  {
    if exports == [] then Progress([], [], seq(|candidates|, _ => false))
    else Claimed(candidates, AllClaimed(candidates, exports[..|exports| - 1]), exports[|exports| - 1])
  }

  function ByConfidence(): (SymbolMatch, SymbolMatch) -> bool {
    (a: SymbolMatch, b: SymbolMatch) => a.confidence > b.confidence
  }

  lemma CountTwice<T>(s: seq<T>, i: nat, j: nat)
    requires i < j < |s| && s[i] == s[j]
    ensures multiset(s)[s[i]] >= 2
  {
    assert s == s[..j] + [s[j]] + s[j + 1..];
    assert s[i] in s[..j];
  }

  lemma OtherPlace<T>(s: seq<T>, i: nat)
    requires i < |s| && multiset(s)[s[i]] >= 2
    ensures exists j :: 0 <= j < |s| && j != i && s[j] == s[i]
  {
    var rest := s[..i] + s[i + 1..];
    assert s == s[..i] + [s[i]] + s[i + 1..];
    assert multiset(s) == multiset(rest) + multiset{s[i]};
    assert s[i] in multiset(rest);
    var k :| 0 <= k < |rest| && rest[k] == s[i];
    var j := if k < i then k else k + 1;
    assert s[j] == s[i];
  }

  lemma DistinctInAnyOrder(a: seq<Fingerprint>, b: seq<Fingerprint>)
    requires DistinctAddresses(a) && multiset(a) == multiset(b)
    ensures DistinctAddresses(b)
  {
    forall i, j | 0 <= i < j < |b| ensures b[i].rva != b[j].rva {
      assert b[i] in multiset(a) && b[j] in multiset(a);
      var k :| 0 <= k < |a| && a[k] == b[i];
      if b[i] == b[j] {
        CountTwice(b, i, j);
        OtherPlace(a, k);
      } else {
        var l :| 0 <= l < |a| && a[l] == b[j];
        assert k != l;
      }
    }
  }

  /** Being an assignment does not depend on the order of the matches. */
  lemma AssignmentInAnyOrder(a: seq<SymbolMatch>, b: seq<SymbolMatch>)
    requires IsAssignment(a) && multiset(a) == multiset(b)
    ensures IsAssignment(b)
  {
    forall i, j | 0 <= i < |b| && 0 <= j < |b| && i != j && !b[i].source.PeExport?
      ensures b[i].original.id != b[j].original.id && b[i].newRva != b[j].newRva
    {
      assert b[i] in multiset(a) && b[j] in multiset(a);
      var k :| 0 <= k < |a| && a[k] == b[i];
      if b[i] == b[j] {
        CountTwice(b, if i < j then i else j, if i < j then j else i);
        OtherPlace(a, k);
      } else {
        var l :| 0 <= l < |a| && a[l] == b[j];
      }
    }
  }

  /** The three passes, started from what the exports claim, end in these matches, listed by confidence. */
  ghost predicate RecoversTo(p: Problem, exports: seq<Export>, fingerprints: seq<Fingerprint>, r: Recovered) {
    r.Recovered? && exists end ::
      && ThreePassesLead(p, AllClaimed(p.candidates, exports), fingerprints, end)
      && r == Recovered(Sorted(end.matches, ByConfidence()), end.anchors)
  }

  /** There is one answer. */
  lemma RecoveryIsDetermined(p: Problem, exports: seq<Export>, fingerprints: seq<Fingerprint>, r: Recovered,
                             s: Recovered)
    requires RecoversTo(p, exports, fingerprints, r) && RecoversTo(p, exports, fingerprints, s)
    ensures r == s
  {
    hide PassLeads, AllClaimed;
    var start := AllClaimed(p.candidates, exports);
    var a :| ThreePassesLead(p, start, fingerprints, a) && r == Recovered(Sorted(a.matches, ByConfidence()), a.anchors);
    var b :| ThreePassesLead(p, start, fingerprints, b) && s == Recovered(Sorted(b.matches, ByConfidence()), b.anchors);
    var a1, a2 :| PassLeads(p, start, fingerprints, 0, a1) && PassLeads(p, a1, fingerprints, 1, a2)
                && PassLeads(p, a2, fingerprints, 2, a);
    var b1, b2 :| PassLeads(p, start, fingerprints, 0, b1) && PassLeads(p, b1, fingerprints, 1, b2)
                && PassLeads(p, b2, fingerprints, 2, b);
    PassIsDetermined(p, start, fingerprints, 0, a1, b1);
    PassIsDetermined(p, a1, fingerprints, 1, a2, b2);
    PassIsDetermined(p, a2, fingerprints, 2, a, b);
  }

  /**
   Main result: for any score and any fingerprints, the answer is where the three passes lead from what
   the exports claim; the matches found by similarity form an injective assignment that reuses nothing
   an export has claimed, and the anchors hold one address per semantic id.  `proposed` are the starts
   the new image proposes, in order; `symbols` are the old ones by id.
   */
  method RecoverAll(symbols: seq<OldSymbol>, exports: seq<Export>, proposed: seq<Boundary>, imageSize: nat,
                    executable: nat -> bool, buildOld: BuildOld, buildNew: BuildNew, score: Score,
                    options: MatcherOptions)
    returns (r: Recovered, ghost bounds: seq<Boundary>)
    requires Describes(buildOld, buildNew) && forall i :: 0 <= i < |symbols| ==> symbols[i].id == i
    ensures r.NoBoundaries? <==> forall k :: 0 <= k < |proposed| ==> !Eligible(proposed[k].rva, imageSize, executable)
    ensures !r.NoBoundaries? ==> IsDiscovered(bounds, proposed, imageSize, executable)
    ensures !r.NoBoundaries? ==> (r.NoCandidate? <==> OldOf(symbols, buildOld) == [] || NewOf(bounds, buildNew) == [])
    ensures r.Recovered? ==>
      RecoversTo(Problem(NewOf(bounds, buildNew), symbols, score, options), exports,
                 Sorted(OldOf(symbols, buildOld), FingerprintsByAddress()), r)
    ensures r.Recovered? ==> IsAssignment(r.matches) && DistinctIds(r.anchors) && Ordered(r.matches, ByConfidence())
    ensures r.Recovered? ==> forall i :: 0 <= i < |r.matches| && !r.matches[i].source.PeExport? ==>
      && Listed(proposed, r.matches[i].newRva) && Eligible(r.matches[i].newRva, imageSize, executable)
      && (r.matches[i].original.semanticId != 0 ==> IsAnchored(r.anchors, r.matches[i].original.semanticId))
  {
    hide IsAssignment, DistinctIds, DistinctAddresses, Eligible, Listed, IsDiscovered, OldOf, NewOf, ThreePassesLead,
      Recovery.Valid;
    bounds := [];
    var discovered := DiscoverBoundaries(proposed, imageSize, executable);
    if discovered.None? {
      return NoBoundaries, [];
    }
    bounds := discovered.value;
    var oldFingerprints := FingerprintOld(symbols, buildOld);
    var newFingerprints := FingerprintNew(discovered.value, buildNew);
    SortedLength(OldOf(symbols, buildOld));
    if oldFingerprints == [] || newFingerprints == [] {
      return NoCandidate, bounds;
    }
    CandidatesFit(bounds, proposed, imageSize, executable, buildNew);
    var recovery := new Recovery(newFingerprints);
    NothingClaimed(recovery);
    for i := 0 to |exports|
      invariant recovery.Valid() && fresh(recovery) && fresh(recovery.used)
      invariant forall k :: 0 <= k < |recovery.matches| ==> recovery.matches[k].source.PeExport?
      invariant ProgressOf(recovery) == AllClaimed(newFingerprints, exports[..i])
    {
      assert exports[..i + 1][..i] == exports[..i];
      ClaimOne(recovery, exports[i]);
    }
    assert exports[..|exports|] == exports;
    RunPasses(recovery, oldFingerprints, symbols, score, options);
    var sorted := Vector.SortList(recovery.matches, ByConfidence());
    SortedPermutes(recovery.matches, ByConfidence());
    SortedOrders(recovery.matches, ByConfidence());
    MatchesSettled(recovery);
    AssignmentInAnyOrder(recovery.matches, sorted);
    forall i | 0 <= i < |sorted| && !sorted[i].source.PeExport?
      ensures Listed(proposed, sorted[i].newRva) && Eligible(sorted[i].newRva, imageSize, executable)
      ensures sorted[i].original.semanticId != 0 ==> IsAnchored(recovery.anchors, sorted[i].original.semanticId)
    {
      SortedMembers(recovery.matches, ByConfidence(), sorted[i]);
      var k :| 0 <= k < |recovery.matches| && recovery.matches[k] == sorted[i];
      var c :| 0 <= c < |newFingerprints| && newFingerprints[c].rva == recovery.matches[k].newRva;
    }
    r := Recovered(sorted, recovery.anchors);
    assert ThreePassesLead(Problem(newFingerprints, symbols, score, options), AllClaimed(newFingerprints, exports),
                           oldFingerprints, ProgressOf(recovery));
  }

  lemma SortedLength(fingerprints: seq<Fingerprint>)
    ensures |Sorted(fingerprints, FingerprintsByAddress())| == |fingerprints|
  {
    SortedPermutes(fingerprints, FingerprintsByAddress());
  }

  /** Candidates stand at eligible starts. */
  lemma CandidatesFit(bounds: seq<Boundary>, proposed: seq<Boundary>, imageSize: nat, executable: nat -> bool,
                      buildNew: BuildNew)
    requires IsDiscovered(bounds, proposed, imageSize, executable)
    requires forall b: Boundary :: buildNew(b).Some? ==> buildNew(b).value.rva == b.rva
    ensures DistinctAddresses(NewOf(bounds, buildNew))
    ensures forall c :: 0 <= c < |NewOf(bounds, buildNew)| ==>
      var rva := NewOf(bounds, buildNew)[c].rva; Listed(proposed, rva) && Eligible(rva, imageSize, executable)
  {
    hide Eligible, NewOf;
    NewAreBuilt(bounds, buildNew);
    var candidates := NewOf(bounds, buildNew);
    forall c | 0 <= c < |candidates|
      ensures Listed(proposed, candidates[c].rva) && Eligible(candidates[c].rva, imageSize, executable)
    {
      assert candidates[c] in candidates;
      assert Listed(bounds, candidates[c].rva);
    }
  }

  lemma NothingClaimed(recovery: Recovery)
    requires recovery.Valid() && recovery.matches == [] && recovery.anchors == []
    requires forall j :: 0 <= j < recovery.used.Length ==> !recovery.used[j]
    ensures ProgressOf(recovery) == AllClaimed(recovery.candidates, [])
  {
  }

  /** The next export, as `Claimed` says. */
  method ClaimOne(recovery: Recovery, e: Export)
    requires recovery.Valid()
    requires forall i :: 0 <= i < |recovery.matches| ==> recovery.matches[i].source.PeExport?
    modifies recovery, recovery.used
    ensures recovery.Valid()
    ensures forall i :: 0 <= i < |recovery.matches| ==> recovery.matches[i].source.PeExport?
    ensures |old(ProgressOf(recovery)).used| == |recovery.candidates|
    ensures ProgressOf(recovery) == Claimed(recovery.candidates, old(ProgressOf(recovery)), e)
  {
    recovery.ClaimExport(e);
  }

  ghost function ProgressOf(recovery: Recovery): Progress
    reads recovery, recovery.used
  {
    Progress(recovery.matches, recovery.anchors, recovery.used[..])
  }

  /** One pass over the old functions. */
  method RunPass(recovery: Recovery, fingerprints: seq<Fingerprint>, symbols: seq<OldSymbol>, pass: nat, score: Score,
                 options: MatcherOptions)
    requires recovery.Valid() && forall i :: 0 <= i < |symbols| ==> symbols[i].id == i
    requires FoundAmong(recovery.matches, recovery.candidates)
    modifies recovery, recovery.used
    ensures recovery.Valid() && FoundAmong(recovery.matches, recovery.candidates)
    ensures old(recovery.anchors) <= recovery.anchors && old(recovery.matches) <= recovery.matches
    ensures PassLeads(Problem(recovery.candidates, symbols, score, options), old(ProgressOf(recovery)), fingerprints,
                      pass, ProgressOf(recovery))
  {
    hide Ranks, Verdict, Recovery.Valid;
    ghost var p := Problem(recovery.candidates, symbols, score, options);
    ghost var start := ProgressOf(recovery);
    for i := 0 to |fingerprints|
      invariant recovery.Valid() && FoundAmong(recovery.matches, recovery.candidates)
      invariant old(recovery.anchors) <= recovery.anchors && old(recovery.matches) <= recovery.matches
      invariant PassLeads(p, start, fingerprints[..i], pass, ProgressOf(recovery))
    {
      ghost var before := ProgressOf(recovery);
      UsedFits(recovery);
      var best, second, index := recovery.Consider(fingerprints[i], symbols, pass, score, options);
      assert TurnBy(p, before, ProgressOf(recovery), fingerprints[i], pass, best, second, index);
      assert fingerprints[..i + 1][..i] == fingerprints[..i];
      VerdictIsFound(p, fingerprints[i], pass, best, second, index);
    }
    assert fingerprints[..|fingerprints|] == fingerprints;
  }

  lemma UsedFits(recovery: Recovery)
    requires recovery.Valid()
    ensures recovery.used.Length == |recovery.candidates|
  {
  }

  lemma VerdictIsFound(p: Problem, fingerprint: Fingerprint, pass: nat, best: real, second: real, index: nat)
    requires best > -1.0 ==> index < |p.candidates|
    ensures var verdict := Verdict(p.candidates, fingerprint, p.symbols, best, second, index, pass, p.options);
            verdict.Some? ==> index < |p.candidates| && p.candidates[index].rva == verdict.value.newRva
  {
  }

  /** Three passes over the old functions; the last also takes probable matches. */
  method RunPasses(recovery: Recovery, fingerprints: seq<Fingerprint>, symbols: seq<OldSymbol>, score: Score,
                   options: MatcherOptions)
    requires recovery.Valid() && forall i :: 0 <= i < |symbols| ==> symbols[i].id == i
    requires forall i :: 0 <= i < |recovery.matches| ==> recovery.matches[i].source.PeExport?
    modifies recovery, recovery.used
    ensures recovery.Valid() && FoundAmong(recovery.matches, recovery.candidates)
    ensures old(recovery.anchors) <= recovery.anchors && old(recovery.matches) <= recovery.matches
    ensures ThreePassesLead(Problem(recovery.candidates, symbols, score, options), old(ProgressOf(recovery)),
                            fingerprints, ProgressOf(recovery))
  {
    hide Recovery.Valid, PassLeads;
    ghost var p := Problem(recovery.candidates, symbols, score, options);
    ghost var states := [ProgressOf(recovery)];
    for pass := 0 to 3
      invariant recovery.Valid() && FoundAmong(recovery.matches, recovery.candidates)
      invariant old(recovery.anchors) <= recovery.anchors && old(recovery.matches) <= recovery.matches
      invariant |states| == pass + 1 && states[0] == old(ProgressOf(recovery)) && states[pass] == ProgressOf(recovery)
      invariant forall k :: 0 <= k < pass ==> PassLeads(p, states[k], fingerprints, k, states[k + 1])
    {
      RunPass(recovery, fingerprints, symbols, pass, score, options);
      states := states + [ProgressOf(recovery)];
    }
    assert PassLeads(p, states[0], fingerprints, 0, states[1]) && PassLeads(p, states[1], fingerprints, 1, states[2])
        && PassLeads(p, states[2], fingerprints, 2, states[3]);
  }

  ghost predicate FoundAmong(matches: seq<SymbolMatch>, candidates: seq<Fingerprint>) {
    forall i :: 0 <= i < |matches| && !matches[i].source.PeExport? ==>
      exists c :: 0 <= c < |candidates| && candidates[c].rva == matches[i].newRva
  }

  lemma MatchesSettled(recovery: Recovery)
    requires recovery.Valid()
    ensures IsAssignment(recovery.matches) && DistinctIds(recovery.anchors)
    ensures forall i :: 0 <= i < |recovery.matches| && !recovery.matches[i].source.PeExport? ==>
      recovery.matches[i].original.semanticId != 0 ==>
        IsAnchored(recovery.anchors, recovery.matches[i].original.semanticId)
  {
  }
}
