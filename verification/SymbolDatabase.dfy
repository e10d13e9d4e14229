/**
 The symbol database: interned strings, the symbol, type and inline-site tables, and the indices
 `Finalize` builds over them.  Every lookup is proved to agree with a linear scan of the tables, for
 any name hash, colliding ones included.
 */
module SymbolDatabase {
  import opened Core
  import opened Sorting
  import Vector
  import opened SymbolTables

  class SymbolDatabase {
    const hashName: string -> nat
    var strings: seq<string>
    var symbols: seq<Symbol>
    var types: seq<TypeInfo>
    var inlineSites: seq<InlineSite>
    var nameIndex: seq<NameIndexEntry>
    var addressIndex: seq<nat>
    var ready: bool

    ghost predicate Valid()
      reads this
    {
      && strings != [] && strings[EMPTY_STRING] == ""
      && (forall i, j :: 0 <= i < j < |strings| ==> strings[i] != strings[j])
      && |symbols| <= INVALID_ID && (forall i :: 0 <= i < |symbols| ==> symbols[i].id == i)
      && (forall k :: k in addressIndex ==> k < |symbols|)
      && (forall e :: e in nameIndex ==> e.symbol < |symbols|)
    }

    function EntryFor(name: nat, symbol: nat): NameIndexEntry
      reads this`strings
    {
      NameIndexEntry(hashName(Text(strings, name)), name, symbol)
    }

    /** The name index lists every nonempty name of every symbol, and nothing else, in order. */
    ghost predicate NameIndexCurrent()
      reads this
    {
      && Ordered(nameIndex, NameOrder(strings))
      && NamesListed(nameIndex, |symbols|)
    }

    /** The entry is one a symbol among the first `count` calls for. */
    ghost predicate IsEntry(e: NameIndexEntry, count: nat)
      reads this`strings, this`symbols
      requires count <= |symbols|
    {
      && e.symbol < count && e.name != EMPTY_STRING && symbols[e.symbol].HasNameId(e.name)
      && e == EntryFor(e.name, e.symbol)
    }

    ghost predicate NamesListed(entries: seq<NameIndexEntry>, count: nat)
      reads this`strings, this`symbols
    {
      && count <= |symbols|
      && forall e :: e in entries <==> IsEntry(e, count)
    }

    ghost predicate AddressIndexCurrent()
      reads this
    {
      && Ordered(addressIndex, AddressOrder(symbols))
      && forall k: nat :: k in addressIndex <==> k < |symbols| && symbols[k].rva != 0
    }

    constructor (hashName: string -> nat)
      ensures Valid() && strings == [""] && symbols == [] && types == [] && inlineSites == [] && !ready
    {
      this.hashName := hashName;
      strings, symbols, types, inlineSites := [""], [], [], [];
      nameIndex, addressIndex, ready := [], [], false;
    }

    /** Equal strings always get the same id, which stays theirs. */
    method Intern(value: string) returns (id: nat)
      requires Valid()
      modifies this`strings
      ensures Valid() && old(strings) <= strings
      ensures id < |strings| && strings[id] == value
      ensures strings == old(strings) || strings == old(strings) + [value]
    {
      if value == "" {
        return EMPTY_STRING;
      }
      for i := 1 to |strings|
        invariant forall k :: 0 <= k < i ==> strings[k] != value
      {
        if strings[i] == value {
          return i;
        }
      }
      strings := strings + [value];
      return |strings| - 1;
    }

    /** The id a caller put into the record is replaced by the symbol's position. */
    method AddSymbol(value: Symbol) returns (id: nat)
      requires Valid() && |symbols| < INVALID_ID
      modifies this`symbols
      ensures Valid() && id == |old(symbols)|
      ensures symbols == old(symbols) + [value.(id := id)]
    {
      id := |symbols|;
      symbols := symbols + [value.(id := id)];
    }

    method AddType(value: TypeInfo) returns (accepted: bool)
      requires Valid()
      modifies this`types
      ensures Valid() && accepted == (value.index != 0xFFFF_FFFF)
      ensures types == old(types) + if accepted then [value] else []
    {
      accepted := value.index != INVALID_ID;
      if accepted {
        types := types + [value];
      }
    }

    method AddInlineSite(value: InlineSite) returns (id: nat)
      requires Valid()
      modifies this`inlineSites
      ensures Valid() && id == |old(inlineSites)|
      ensures inlineSites == old(inlineSites) + [value.(id := id)]
    {
      id := |inlineSites|;
      inlineSites := inlineSites + [value.(id := id)];
    }

    method AddNameIndex(name: nat, symbol: nat)
      modifies this`nameIndex
      ensures nameIndex == old(nameIndex) +
        if name == EMPTY_STRING || symbol == INVALID_ID then [] else [EntryFor(name, symbol)]
    {
      if name != EMPTY_STRING && symbol != INVALID_ID {
        nameIndex := nameIndex + [EntryFor(name, symbol)];
      }
    }

    /** The name part of one round of the indexing loop: each distinct name id of the symbol once. */
    method IndexNames(s: Symbol)
      modifies this`nameIndex
      ensures s.id != INVALID_ID ==> forall e :: e in nameIndex <==>
        e in old(nameIndex) || (s.HasNameId(e.name) && e.name != EMPTY_STRING && e == EntryFor(e.name, s.id))
    {
      AddNameIndex(s.name, s.id);
      if s.decoratedName != s.name {
        AddNameIndex(s.decoratedName, s.id);
      }
      if s.qualifiedName != s.name && s.qualifiedName != s.decoratedName {
        AddNameIndex(s.qualifiedName, s.id);
      }
      if s.baseName != s.name && s.baseName != s.decoratedName && s.baseName != s.qualifiedName {
        AddNameIndex(s.baseName, s.id);
      }
    }

    /** The indexing loop, before the indices are sorted. */
    method ListEntries()
      requires Valid()
      modifies this`nameIndex, this`addressIndex
      ensures NamesListed(nameIndex, |symbols|)
      ensures forall k: nat :: k in addressIndex <==> k < |symbols| && symbols[k].rva != 0
    {
      nameIndex, addressIndex := [], [];
      assert NamesListed(nameIndex, 0);
      hide NamesListed, EntryFor;
      for i := 0 to |symbols|
        invariant NamesListed(nameIndex, i)
        invariant forall k: nat :: k in addressIndex <==> k < i && symbols[k].rva != 0
      {
        ghost var before := nameIndex;
        IndexNames(symbols[i]);
        OneMoreListed(before, nameIndex, i);
        if symbols[i].rva != 0 {
          addressIndex := addressIndex + [symbols[i].id];
        }
      }
    }

    lemma OneMoreListed(before: seq<NameIndexEntry>, after: seq<NameIndexEntry>, i: nat)
      requires Valid() && i < |symbols| && NamesListed(before, i)
      requires forall e :: e in after <==>
        e in before || (symbols[i].HasNameId(e.name) && e.name != EMPTY_STRING && e == EntryFor(e.name, i))
      ensures NamesListed(after, i + 1)
    {
    }

    method Finalize()
      requires Valid()
      modifies this`nameIndex, this`addressIndex, this`types, this`inlineSites, this`ready
      ensures Valid() && ready && NameIndexCurrent() && AddressIndexCurrent()
      ensures types == Sorted(old(types), IndexLess) && Ordered(types, IndexLess)
      ensures forall index :: FirstType(types, index) == FirstType(old(types), index)
      ensures inlineSites == Sorted(old(inlineSites), SiteLess) && Ordered(inlineSites, SiteLess)
    {
      hide Ordered, Sorted, FirstType;
      ListEntries();
      SortedEntries(nameIndex);
      SortedPositions(addressIndex);
      TablesSorted(types, inlineSites);
      nameIndex := Vector.SortList(nameIndex, NameOrder(strings));
      addressIndex := Vector.SortList(addressIndex, AddressOrder(symbols));
      types := Vector.SortList(types, IndexLess);
      inlineSites := Vector.SortList(inlineSites, SiteLess);
      ready := true;
    }

    lemma SortedEntries(entries: seq<NameIndexEntry>)
      requires NamesListed(entries, |symbols|)
      ensures var sorted := Sorted(entries, NameOrder(strings));
              NamesListed(sorted, |symbols|) && Ordered(sorted, NameOrder(strings))
    {
      NameLessIsOrder(strings);
      SortedOrders(entries, NameOrder(strings));
      forall e ensures e in Sorted(entries, NameOrder(strings)) <==> e in entries {
        SortedMembers(entries, NameOrder(strings), e);
      }
    }

    lemma SortedPositions(positions: seq<nat>)
      requires forall k: nat :: k in positions <==> k < |symbols| && symbols[k].rva != 0
      ensures var sorted := Sorted(positions, AddressOrder(symbols));
              && Ordered(sorted, AddressOrder(symbols))
              && forall k: nat :: k in sorted <==> k < |symbols| && symbols[k].rva != 0
    {
      AddressOrderIsOrder(symbols);
      SortedOrders(positions, AddressOrder(symbols));
      forall k: nat ensures k in Sorted(positions, AddressOrder(symbols)) <==> k in positions {
        SortedMembers(positions, AddressOrder(symbols), k);
      }
    }

    // ------------------------------------------------ lookups

    predicate NameMatches(e: NameIndexEntry, name: string)
      reads this`strings
    {
      e.hash == hashName(name) && Text(strings, e.name) == name
    }

    /** The symbols of the matching entries at positions `left` up to `right`, each once. */
    ghost predicate Collected(results: seq<nat>, left: nat, right: nat, name: string)
      reads this
    {
      && right <= |nameIndex|
      && (forall k :: left <= k < right && NameMatches(nameIndex[k], name) ==> nameIndex[k].symbol in results)
      && (forall x :: x in results ==>
            exists k :: left <= k < right && NameMatches(nameIndex[k], name) && nameIndex[k].symbol == x)
    }

    /** Entries matching one name stand in symbol order. */
    lemma MatchesInSymbolOrder(j: nat, k: nat, name: string)
      requires NameIndexCurrent() && j < k < |nameIndex|
      requires NameMatches(nameIndex[j], name) && NameMatches(nameIndex[k], name)
      ensures nameIndex[j].symbol <= nameIndex[k].symbol
    {
      CompareIsOrder(name, name, name);
      assert !NameOrder(strings)(nameIndex[k], nameIndex[j]);
    }

    /** The entries with the name's hash are where the search and the walk look for them. */
    lemma CollectedIsScan(results: seq<nat>, left: nat, right: nat, name: string)
      requires Valid() && NameIndexCurrent() && name != ""
      requires Ascending(results) && left <= right && Collected(results, left, right, name)
      requires forall k :: 0 <= k < left ==> nameIndex[k].hash < hashName(name)
      requires forall k :: right <= k < |nameIndex| ==> nameIndex[k].hash > hashName(name)
      ensures results == NameScan(strings, symbols, name)
    {
      var scan := NameScan(strings, symbols, name);
      forall x | x in results ensures x in scan {
        var k :| left <= k < right && NameMatches(nameIndex[k], name) && nameIndex[k].symbol == x;
        assert IsEntry(nameIndex[k], |symbols|);
      }
      forall x | x in scan ensures x in results {
        var s := symbols[x];
        var n := if Text(strings, s.name) == name then s.name
                 else if Text(strings, s.decoratedName) == name then s.decoratedName
                 else if Text(strings, s.qualifiedName) == name then s.qualifiedName else s.baseName;
        assert IsEntry(EntryFor(n, x), |symbols|);
        var k :| 0 <= k < |nameIndex| && nameIndex[k] == EntryFor(n, x);
        assert left <= k < right;
      }
      AscendingUnique(results, scan);
    }

    lemma HashesPartition(hash: nat)
      requires NameIndexCurrent()
      ensures Partitioned(nameIndex, (e: NameIndexEntry) => e.hash < hash)
      ensures forall j, k :: 0 <= j < k < |nameIndex| ==> nameIndex[j].hash <= nameIndex[k].hash
    {
      forall j, k | 0 <= j < k < |nameIndex| ensures nameIndex[j].hash <= nameIndex[k].hash {
        assert !NameOrder(strings)(nameIndex[k], nameIndex[j]);
      }
    }

    /** One matching entry added behind the results so far. */
    lemma CollectOne(results: seq<nat>, left: nat, k: nat, name: string)
      requires NameIndexCurrent() && left <= k < |nameIndex| && NameMatches(nameIndex[k], name)
      requires Ascending(results) && Collected(results, left, k, name) && nameIndex[k].symbol !in results
      ensures Ascending(results + [nameIndex[k].symbol])
    {
      forall i | 0 <= i < |results| ensures results[i] < nameIndex[k].symbol {
        assert results[i] in results;
        var j :| left <= j < k && NameMatches(nameIndex[j], name) && nameIndex[j].symbol == results[i];
        MatchesInSymbolOrder(j, k, name);
      }
    }

    /** After `Finalize`: exactly the symbols a linear scan finds under that name, ascending, each once. */
    method FindExact(name: string) returns (found: bool, results: seq<nat>)
      requires Valid()
      ensures found == (results != [])
      ensures NameIndexCurrent() ==> results == if name == "" then [] else NameScan(strings, symbols, name)
    {
      results := [];
      if name == "" || nameIndex == [] {
        if NameIndexCurrent() && name != "" {
          CollectedIsScan([], 0, 0, name);
        }
        return false, [];
      }
      hide NameIndexCurrent, Collected, NameScan, Ascending, Valid;
      var hash := hashName(name);
      var left := FirstWithHash(hash);
      ghost var right;
      results, right := CollectMatches(left, hash, name);
      if NameIndexCurrent() {
        HashesPartition(hash);
        CollectedIsScan(results, left, right, name);
      }
      found := results != [];
    }

    /** Where the entries with a hash begin. */
    method FirstWithHash(hash: nat) returns (left: nat)
      ensures left <= |nameIndex|
      ensures NameIndexCurrent() ==>
        && (forall k :: 0 <= k < left ==> nameIndex[k].hash < hash)
        && (forall k :: left <= k < |nameIndex| ==> nameIndex[k].hash >= hash)
    {
      hide NameIndexCurrent, Search;
      if NameIndexCurrent() {
        HashesPartition(hash);
      }
      left := LowerBound(nameIndex, (e: NameIndexEntry) => e.hash < hash);
    }

    /** The walk over the entries with the name's hash. */
    method CollectMatches(left: nat, hash: nat, name: string) returns (results: seq<nat>, ghost right: nat)
      requires left <= |nameIndex|
      ensures left <= right <= |nameIndex| && Collected(results, left, right, name)
      ensures right < |nameIndex| ==> nameIndex[right].hash != hash
      ensures NameIndexCurrent() ==> Ascending(results)
    {
      results := [];
      var i := left;
      while i < |nameIndex| && nameIndex[i].hash == hash
        invariant left <= i <= |nameIndex|
        invariant Collected(results, left, i, name)
        invariant NameIndexCurrent() ==> Ascending(results)
      {
        if NameMatches(nameIndex[i], name) && nameIndex[i].symbol !in results {
          if NameIndexCurrent() {
            CollectOne(results, left, i, name);
          }
          results := results + [nameIndex[i].symbol];
        }
        i := i + 1;
      }
      right := i;
    }

    /** The least symbol a linear scan finds. */
    method FindFirstExact(name: string) returns (symbol: Option<Symbol>)
      requires Valid()
      ensures NameIndexCurrent() && name != "" ==>
        var scan := NameScan(strings, symbols, name);
        && (scan == [] ==> symbol == None)
        && (scan != [] ==> scan[0] in scan && symbol == Some(symbols[scan[0]]))
    {
      var found, results := FindExact(name);
      if !found || results[0] >= |symbols| {
        return None;
      }
      return Some(symbols[results[0]]);
    }

    /**
     Before `Finalize` a linear scan, afterwards a binary search.  Adding a type does not put the finalized
     table in order again.  While the lower indices still stand in front, the answer is the first type
     added under the index exactly when no higher index stands in front of that type.
     */
    method TypeByIndex(index: nat) returns (r: Option<TypeInfo>)
      ensures !ready || Ordered(types, IndexLess) ==> r == FirstType(types, index)
      ensures ready ==> r == TypeFound(types, index)
      ensures ready && index != INVALID_ID && Partitioned(types, IndexBelow(index)) ==>
        (r == FirstType(types, index) <==> NoHigherInFront(types, index))
    {
      if index == INVALID_ID || types == [] {
        return None;
      }
      if !ready {
        for i := 0 to |types|
          invariant FirstType(types, index) == FirstType(types[i..], index)
        {
          if types[i].index == index {
            return Some(types[i]);
          }
        }
        return None;
      }
      var position := LowerBound(types, IndexBelow(index));
      if position < |types| && types[position].index == index {
        r := Some(types[position]);
      } else {
        r := None;
      }
      if Ordered(types, IndexLess) {
        OrderIsEnough(types, index);
      }
      if Partitioned(types, IndexBelow(index)) {
        FoundIsFirst(types, index, position);
      }
    }

    /** The symbol at a position of the address index. */
    function AtAddress(k: nat): Symbol
      reads this`symbols, this`addressIndex
      requires k < |addressIndex|
    {
      SymbolAt(symbols, addressIndex[k])
    }

    /** A sized function that ends before the address and starts too far below it: the scan gives up here. */
    predicate GivesUpAt(g: Symbol, rva: nat) {
      g.kind.IsFunction() && g.size != 0 && !g.Contains(rva) && g.rva <= rva && rva - g.rva > SCAN_LIMIT
    }

    /** What positions `left` and up have shown: no candidate, and no reason to give up. */
    ghost predicate Passed(left: nat, rva: nat)
      reads this`symbols, this`addressIndex
    {
      && left <= |addressIndex|
      && forall k :: left <= k < |addressIndex| ==> !IsCandidate(AtAddress(k), rva) && !GivesUpAt(AtAddress(k), rva)
    }

    lemma AddressesAscend(j: nat, k: nat)
      requires AddressIndexCurrent() && j < k < |addressIndex|
      ensures !AddressLess(AtAddress(k), AtAddress(j))
    {
      assert !AddressOrder(symbols)(addressIndex[k], addressIndex[j]);
    }

    lemma PositionOf(s: Symbol) returns (k: nat)
      requires AddressIndexCurrent() && s in symbols && s.rva != 0
      ensures k < |addressIndex| && AtAddress(k) == s
    {
      var i :| 0 <= i < |symbols| && symbols[i] == s;
      assert i in addressIndex;
      k :| k < |addressIndex| && addressIndex[k] == i;
    }

    lemma FoundIsBest(p: nat, rva: nat)
      requires Valid() && AddressIndexCurrent() && p < |addressIndex| && Passed(p + 1, rva)
      requires IsCandidate(AtAddress(p), rva)
      ensures IsBest(symbols, AtAddress(p), rva) && !Hidden(symbols, AtAddress(p), rva)
    {
      var s := AtAddress(p);
      assert addressIndex[p] in addressIndex;
      forall t | t in symbols && IsCandidate(t, rva) ensures t.rva < s.rva || (t.rva == s.rva && s.size <= t.size) {
        var q := PositionOf(t);
        if q < p {
          AddressesAscend(q, p);
        }
      }
      forall g | g in symbols && g.rva != 0 ensures !Hides(g, s, rva) {
        var q := PositionOf(g);
        if q < p {
          AddressesAscend(q, p);
        }
      }
    }

    lemma GivenUpIsHidden(p: nat, rva: nat)
      requires Valid() && AddressIndexCurrent() && p < |addressIndex| && Passed(p + 1, rva)
      requires GivesUpAt(AtAddress(p), rva)
      ensures forall s :: s in symbols && IsCandidate(s, rva) ==> Hidden(symbols, s, rva)
    {
      var g := AtAddress(p);
      assert addressIndex[p] in addressIndex;
      forall s | s in symbols && IsCandidate(s, rva) ensures Hidden(symbols, s, rva) {
        var q := PositionOf(s);
        if q < p {
          AddressesAscend(q, p);
        }
        assert Hides(g, s, rva);
      }
    }

    lemma StartsPartition(rva: nat)
      requires AddressIndexCurrent()
      ensures Partitioned(addressIndex, StartsBy(symbols, rva))
    {
      forall j, k | 0 <= j < k < |addressIndex| ensures AtAddress(j).rva <= AtAddress(k).rva {
        AddressesAscend(j, k);
      }
    }

    /** The last position of a rising run of starts holds the greatest symbol at or before the address. */
    lemma LastIsGreatest(p: nat, rva: nat)
      requires Valid() && AddressIndexCurrent() && p < |addressIndex| && AtAddress(p).rva <= rva
      requires forall k :: p < k < |addressIndex| ==> AtAddress(k).rva > rva
      ensures AtAddress(p) in symbols && AtAddress(p).rva != 0
      ensures forall s :: s in symbols && 0 < s.rva <= rva ==> !AddressLess(AtAddress(p), s)
    {
      assert addressIndex[p] in addressIndex;
      forall s | s in symbols && 0 < s.rva <= rva ensures !AddressLess(AtAddress(p), s) {
        var q := PositionOf(s);
        if q < p {
          AddressesAscend(q, p);
        }
      }
    }

    /** Where the symbols that start above the address begin. */
    method FirstStartAbove(rva: nat) returns (left: nat)
      ensures left <= |addressIndex|
      ensures AddressIndexCurrent() ==>
        && (forall k :: 0 <= k < left ==> AtAddress(k).rva <= rva)
        && (forall k :: left <= k < |addressIndex| ==> AtAddress(k).rva > rva)
    {
      hide Search, AddressIndexCurrent;
      if AddressIndexCurrent() {
        StartsPartition(rva);
      }
      left := LowerBound(addressIndex, StartsBy(symbols, rva));
    }

    /** After `Finalize`: of the symbols that start at or before the address, one behind which no other stands. */
    method SymbolAtOrBeforeRva(rva: nat) returns (r: Option<Symbol>)
      requires Valid()
      ensures AddressIndexCurrent() ==> (r.None? <==> forall s :: s in symbols && s.rva != 0 ==> s.rva > rva)
      ensures AddressIndexCurrent() && r.Some? ==>
        && r.value in symbols && 0 < r.value.rva <= rva
        && forall s :: s in symbols && 0 < s.rva <= rva ==> NoneBehind(r.value, s)
    {
      var left := FirstStartAbove(rva);
      if left == 0 {
        if AddressIndexCurrent() {
          forall s | s in symbols && s.rva != 0 ensures s.rva > rva {
            var q := PositionOf(s);
          }
        }
        return None;
      }
      assert addressIndex[left - 1] in addressIndex;
      if AddressIndexCurrent() {
        LastIsGreatest(left - 1, rva);
      }
      return Some(symbols[addressIndex[left - 1]]);
    }

    /**
     The function whose range contains the address.  It is the best candidate of a linear scan, except
     that the early break loses exactly the candidates it hides.
     */
    method FunctionContainingRva(rva: nat) returns (r: Option<Symbol>)
      requires Valid()
      ensures r.Some? ==> r.value in symbols && r.value.kind.IsFunction() && r.value.Contains(rva)
      ensures AddressIndexCurrent() && r.Some? ==> IsBest(symbols, r.value, rva) && !Hidden(symbols, r.value, rva)
      ensures AddressIndexCurrent() && r.None? ==>
        forall s :: s in symbols && IsCandidate(s, rva) ==> Hidden(symbols, s, rva)
    {
      var left := FirstStartAbove(rva);
      while left > 0
        invariant 0 <= left <= |addressIndex|
        invariant AddressIndexCurrent() ==> Passed(left, rva)
      {
        left := left - 1;
        assert addressIndex[left] in addressIndex;
        var value := symbols[addressIndex[left]];
        if !value.kind.IsFunction() {
          continue;
        }
        if value.rva > rva {
          continue;
        }
        if value.size == 0 {
          if rva == value.rva {
            if AddressIndexCurrent() {
              FoundIsBest(left, rva);
            }
            return Some(value);
          }
          continue;
        }
        if rva - value.rva < value.size {
          if AddressIndexCurrent() {
            FoundIsBest(left, rva);
          }
          return Some(value);
        }
        if rva - value.rva > SCAN_LIMIT {
          if AddressIndexCurrent() {
            GivenUpIsHidden(left, rva);
          }
          return None;
        }
      }
      if AddressIndexCurrent() {
        forall s | s in symbols && s.rva != 0 ensures !IsCandidate(s, rva) {
          var q := PositionOf(s);
        }
      }
      return None;
    }

    method InlineStack(rva: nat) returns (found: bool, frames: seq<InlineSite>)
      ensures frames == Frames(inlineSites, rva) && found == (frames != [])
    {
      frames := [];
      for i := 0 to |inlineSites|
        invariant frames == Filter(inlineSites[..i], (s: InlineSite) => s.Covers(rva))
      {
        var site := inlineSites[i];
        FilterLast(inlineSites[..i], site, (s: InlineSite) => s.Covers(rva));
        assert inlineSites[..i + 1] == inlineSites[..i] + [site];
        if !(site.startRva == 0 && site.endRva == 0) {
          if site.startRva <= rva && (site.endRva == 0 || rva < site.endRva) {
            frames := frames + [site];
          }
        }
      }
      assert inlineSites[..|inlineSites|] == inlineSites;
      frames := Vector.SortList(frames, WiderSpan);
      found := frames != [];
    }
  }

  lemma TablesSorted(types: seq<TypeInfo>, sites: seq<InlineSite>)
    ensures Ordered(Sorted(types, IndexLess), IndexLess) && Ordered(Sorted(sites, SiteLess), SiteLess)
    ensures forall index :: FirstType(Sorted(types, IndexLess), index) == FirstType(types, index)
  {
    SpanOrder();
    SortedOrders(types, IndexLess);
    SortedOrders(sites, SiteLess);
    forall index ensures FirstType(Sorted(types, IndexLess), index) == FirstType(types, index) {
      SortingKeepsFirstType(types, index);
    }
  }
}
