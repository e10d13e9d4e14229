/**
 The records of the symbol database, the orders its indices are sorted by, and the linear scans that
 say what each lookup means.
 */
module SymbolTables {
  import opened Core
  import opened Sorting

  const INVALID_ID := 0xFFFF_FFFF
  const EMPTY_STRING: nat := 0
  const SCAN_LIMIT := 0x10_0000

  datatype SymbolKind =
    | Unknown | Function | PublicFunction | Thunk | GlobalVariable | StaticVariable | ThreadLocal
    | Label | Constant | UserDefinedType | LocalVariable | Parameter
  {
    function Underlying(): nat {
      match this
      case Unknown => 0 case Function => 1 case PublicFunction => 2 case Thunk => 3
      case GlobalVariable => 4 case StaticVariable => 5 case ThreadLocal => 6 case Label => 7
      case Constant => 8 case UserDefinedType => 9 case LocalVariable => 10 case Parameter => 11
    }

    predicate IsFunction() { Function? || PublicFunction? || Thunk? }
  }

  datatype Symbol = Symbol(id: nat, name: nat, decoratedName: nat, qualifiedName: nat, baseName: nat,
                           kind: SymbolKind, rva: nat, size: nat)
  {
    predicate HasNameId(n: nat) { n == name || n == decoratedName || n == qualifiedName || n == baseName }

    /** Does the function's range contain the address?  An unsized function contains only its start. */
    predicate Contains(address: nat) {
      if size == 0 then address == rva else rva <= address && address - rva < size
    }
  }

  /** A type record; everything but its index is `details`. */
  datatype TypeInfo = TypeInfo(index: nat, details: nat)

  /** A range of inlined code; an end of 0 leaves it open. */
  datatype InlineSite = InlineSite(id: nat, startRva: nat, endRva: nat) {
    predicate Covers(rva: nat) {
      !(startRva == 0 && endRva == 0) && startRva <= rva && (endRva == 0 || rva < endRva)
    }

    function Span(): nat { if endRva > startRva then endRva - startRva else MAX_UINT64 }

    predicate Encloses(inner: InlineSite) {
      startRva <= inner.startRva && (endRva == 0 || (inner.endRva != 0 && inner.endRva <= endRva))
    }

    predicate DisjointFrom(other: InlineSite) {
      (endRva != 0 && endRva <= other.startRva) || (other.endRva != 0 && other.endRva <= startRva)
    }
  }

  datatype NameIndexEntry = NameIndexEntry(hash: nat, name: nat, symbol: nat)

  // ------------------------------------------------ orders

  /** Three-way lexicographic comparison. */
  function Compare(a: string, b: string): int {
    if a == [] then (if b == [] then 0 else -1)
    else if b == [] then 1
    else if a[0] < b[0] then -1
    else if a[0] > b[0] then 1
    else Compare(a[1..], b[1..])
  }

  lemma {:induction false} CompareIsOrder(a: string, b: string, c: string)
    ensures Compare(a, b) == 0 <==> a == b
    ensures Compare(a, b) == -Compare(b, a)
    ensures Compare(a, b) < 0 ==> Compare(a, c) < 0 || Compare(c, b) < 0
  {
    if a != [] && b != [] {
      CompareIsOrder(a[1..], b[1..], if c == [] then [] else c[1..]);
      assert a == [a[0]] + a[1..] && b == [b[0]] + b[1..];
    }
  }

  function Text(strings: seq<string>, id: nat): string {
    if id < |strings| then strings[id] else ""
  }

  predicate NameLess(strings: seq<string>, a: NameIndexEntry, b: NameIndexEntry) {
    if a.hash != b.hash then a.hash < b.hash
    else
      var compare := Compare(Text(strings, a.name), Text(strings, b.name));
      if compare != 0 then compare < 0 else a.symbol < b.symbol
  }

  lemma NameLessIsOrder(strings: seq<string>)
    ensures StrictWeakOrder(NameOrder(strings))
  {
    var less := NameOrder(strings);
    forall a: NameIndexEntry, b: NameIndexEntry ensures less(a, b) ==> !less(b, a) {
      CompareIsOrder(Text(strings, a.name), Text(strings, b.name), "");
    }
    forall a: NameIndexEntry, b: NameIndexEntry, c: NameIndexEntry
      ensures less(a, b) ==> less(a, c) || less(c, b)
    {
      var x, y, z := Text(strings, a.name), Text(strings, b.name), Text(strings, c.name);
      CompareIsOrder(x, y, z);
      CompareIsOrder(x, z, y);
      CompareIsOrder(z, y, x);
    }
  }

  function NameOrder(strings: seq<string>): (NameIndexEntry, NameIndexEntry) -> bool {
    (a, b) => NameLess(strings, a, b)
  }

  predicate AddressLess(a: Symbol, b: Symbol) {
    if a.rva != b.rva then a.rva < b.rva
    else if a.size != b.size then a.size > b.size
    else a.kind.Underlying() < b.kind.Underlying()
  }

  /** `s` starts earlier than `last`; or at the same address and is larger, or as large and of no later kind. */
  predicate NoneBehind(last: Symbol, s: Symbol) {
    || s.rva < last.rva
    || (s.rva == last.rva && s.size > last.size)
    || (s.rva == last.rva && s.size == last.size && s.kind.Underlying() <= last.kind.Underlying())
  }

  /** Symbol positions ordered by the address their symbols start at. */
  function AddressOrder(symbols: seq<Symbol>): (nat, nat) -> bool {
    (a: nat, b: nat) => AddressLess(SymbolAt(symbols, a), SymbolAt(symbols, b))
  }

  function SymbolAt(symbols: seq<Symbol>, i: nat): Symbol {
    if i < |symbols| then symbols[i] else Symbol(INVALID_ID, 0, 0, 0, 0, Unknown, 0, 0)
  }

  function StartsBy(symbols: seq<Symbol>, rva: nat): nat -> bool {
    (i: nat) => SymbolAt(symbols, i).rva <= rva
  }

  lemma AddressOrderIsOrder(symbols: seq<Symbol>)
    ensures StrictWeakOrder(AddressOrder(symbols))
  {
  }

  predicate SiteLess(a: InlineSite, b: InlineSite) {
    if a.startRva != b.startRva then a.startRva < b.startRva else a.endRva > b.endRva
  }

  // ------------------------------------------------ linear scans

  predicate HasName(strings: seq<string>, s: Symbol, name: string) {
    || Text(strings, s.name) == name || Text(strings, s.decoratedName) == name
    || Text(strings, s.qualifiedName) == name || Text(strings, s.baseName) == name
  }

  /** The positions of the symbols that carry the name, in order. */
  function NameScan(strings: seq<string>, symbols: seq<Symbol>, name: string): (ids: seq<nat>)
    ensures forall i: nat :: i in ids <==> i < |symbols| && HasName(strings, symbols[i], name)
    ensures Ascending(ids)
  {
    if symbols == [] then []
    else
      var last := |symbols| - 1;
      var front := NameScan(strings, symbols[..last], name);
      assert forall i :: 0 <= i < |front| ==> front[i] in front;
      front + if HasName(strings, symbols[last], name) then [last] else []
  }

  /** The scan finds a symbol under each of its four names, and under no other. */
  lemma FoundUnderItsNames(strings: seq<string>, symbols: seq<Symbol>, i: nat, name: string)
    requires i < |symbols|
    ensures var s := symbols[i];
            var names := [s.name, s.decoratedName, s.qualifiedName, s.baseName];
            i in NameScan(strings, symbols, name) <==> exists k :: 0 <= k < 4 && Text(strings, names[k]) == name
  {
    var s := symbols[i];
    var names := [s.name, s.decoratedName, s.qualifiedName, s.baseName];
    assert names[0] == s.name && names[1] == s.decoratedName && names[2] == s.qualifiedName && names[3] == s.baseName;
  }

  predicate Ascending(ids: seq<nat>) { forall i, j :: 0 <= i < j < |ids| ==> ids[i] < ids[j] }

  predicate SameMembers(a: seq<nat>, b: seq<nat>) { (forall x :: x in a ==> x in b) && (forall x :: x in b ==> x in a) }

  lemma NonemptyLike(a: seq<nat>, b: seq<nat>)
    requires SameMembers(a, b) && a != []
    ensures b != []
  {
    assert a[0] in b;
  }

  lemma {:induction false} AscendingUnique(a: seq<nat>, b: seq<nat>)
    requires Ascending(a) && Ascending(b) && SameMembers(a, b)
    ensures a == b
  {
    if a != [] && b != [] {
      var x, y := a[|a| - 1], b[|b| - 1];
      assert x in b && y in a;
      assert x == y;
      var a', b' := a[..|a| - 1], b[..|b| - 1];
      forall z ensures z in a' <==> z in b' {
        assert z in a' <==> z in a && z != x;
        assert z in b' <==> z in b && z != y;
      }
      AscendingUnique(a', b');
      assert a == a' + [x] && b == b' + [y];
    } else if a != [] {
      NonemptyLike(a, b);
    } else if b != [] {
      NonemptyLike(b, a);
    }
  }

  /** The first type with the index; an invalid index names none. */
  function FirstType(types: seq<TypeInfo>, index: nat): Option<TypeInfo> {
    if index == INVALID_ID || types == [] then None
    else if types[0].index == index then Some(types[0])
    else FirstType(types[1..], index)
  }

  lemma {:induction false} FirstTypeIsFilterHead(types: seq<TypeInfo>, index: nat)
    requires index != INVALID_ID
    ensures var same := Filter(types, (t: TypeInfo) => t.index == index);
            FirstType(types, index) == if same == [] then None else Some(same[0])
  {
    if types == [] {
    } else {
      var p := (t: TypeInfo) => t.index == index;
      FirstTypeIsFilterHead(types[1..], index);
      FilterFirst(types, p);
    }
  }

  lemma {:induction false} FilterFirst<T(!new)>(s: seq<T>, p: T -> bool)
    requires s != []
    ensures Filter(s, p) == (if p(s[0]) then [s[0]] else []) + Filter(s[1..], p)
  {
    var front, last := s[..|s| - 1], s[|s| - 1];
    assert s == front + [last];
    if front == [] {
      assert s[1..] == [];
    } else {
      hide Filter;
      var rest := front[1..];
      assert s[1..] == rest + [last];
      FilterFirst(front, p);
      FilterLast(front, last, p);
      FilterLast(rest, last, p);
    }
  }

  predicate IndexLess(a: TypeInfo, b: TypeInfo) { a.index < b.index }

  /** Sorting the type table keeps every lookup's answer, whatever indices were added twice. */
  lemma SortingKeepsFirstType(types: seq<TypeInfo>, index: nat)
    ensures FirstType(Sorted(types, IndexLess), index) == FirstType(types, index)
  {
    if index != INVALID_ID {
      FirstTypeIsFilterHead(types, index);
      FirstTypeIsFilterHead(Sorted(types, IndexLess), index);
      SortedIsStable(types, IndexLess, (t: TypeInfo) => t.index == index);
    }
  }

  // ------------------------------------------------ types added after the table was sorted

  function IndexBelow(index: nat): TypeInfo -> bool { (t: TypeInfo) => t.index < index }

  /** What the binary search makes of any table, in order or not. */
  function TypeFound(types: seq<TypeInfo>, index: nat): Option<TypeInfo> {
    if index == INVALID_ID || types == [] then None
    else
      var position := Search(types, IndexBelow(index), 0, |types|);
      if position < |types| && types[position].index == index then Some(types[position]) else None
  }

  predicate IsFirstUnder(types: seq<TypeInfo>, index: nat, j: nat) {
    j < |types| && types[j].index == index && forall i :: 0 <= i < j ==> types[i].index != index
  }

  /** In front of the first type under the index, if there is one, stands none with a higher index. */
  ghost predicate NoHigherInFront(types: seq<TypeInfo>, index: nat) {
    forall i: nat, j: nat :: i < j && IsFirstUnder(types, index, j) ==> types[i].index < index
  }

  lemma {:induction false} FirstTypeIs(types: seq<TypeInfo>, index: nat, j: nat)
    requires index != INVALID_ID && IsFirstUnder(types, index, j)
    ensures FirstType(types, index) == Some(types[j])
  {
    if j > 0 {
      assert types[0].index != index;
      FirstTypeIs(types[1..], index, j - 1);
    }
  }

  /** Either some type is the first under the index, or there is none. */
  lemma {:induction false} FirstTypeOrNone(types: seq<TypeInfo>, index: nat)
    requires index != INVALID_ID
    ensures FirstType(types, index) == None <==> forall j :: 0 <= j < |types| ==> types[j].index != index
    ensures FirstType(types, index).Some? ==> exists j: nat :: IsFirstUnder(types, index, j)
  {
    if types != [] && types[0].index == index {
      assert IsFirstUnder(types, index, 0);
    } else if types != [] {
      FirstTypeOrNone(types[1..], index);
      assert forall j :: 0 < j < |types| ==> types[j] == types[1..][j - 1];
      if FirstType(types[1..], index).Some? {
        var j: nat :| IsFirstUnder(types[1..], index, j);
        assert types[1..][j] == types[j + 1];
        assert IsFirstUnder(types, index, j + 1);
      }
    }
  }

  /** Main result for late types: where the lower indices stand in front, this is exactly when the search is right. */
  lemma FoundIsFirst(types: seq<TypeInfo>, index: nat, position: nat)
    requires index != INVALID_ID && Partitioned(types, IndexBelow(index))
    requires position <= |types|
    requires forall k :: 0 <= k < position ==> types[k].index < index
    requires forall k :: position <= k < |types| ==> types[k].index >= index
    ensures var found := if position < |types| && types[position].index == index then Some(types[position]) else None;
            found == FirstType(types, index) <==> NoHigherInFront(types, index)
  {
    FirstTypeOrNone(types, index);
    if position < |types| && types[position].index == index {
      FirstTypeIs(types, index, position);
      assert forall j: nat :: IsFirstUnder(types, index, j) ==> j == position;
    } else if FirstType(types, index).Some? {
      var j: nat :| IsFirstUnder(types, index, j);
      assert position < j;
      assert types[position].index > index;
    }
  }

  lemma OrderIsEnough(types: seq<TypeInfo>, index: nat)
    requires Ordered(types, IndexLess)
    ensures Partitioned(types, IndexBelow(index)) && NoHigherInFront(types, index)
  {
    forall i, j | 0 <= i < j < |types| ensures types[i].index <= types[j].index {
      assert !IndexLess(types[j], types[i]);
    }
  }

  /** One type added late under a new index is found exactly when the table is in order all the same. */
  lemma OneLateType(front: seq<TypeInfo>, late: TypeInfo)
    requires Ordered(front, IndexLess) && forall t :: t in front ==> t.index != late.index
    ensures Partitioned(front + [late], IndexBelow(late.index))
    ensures NoHigherInFront(front + [late], late.index) <==> Ordered(front + [late], IndexLess)
  {
    var types, n := front + [late], |front|;
    forall i, j | 0 <= i < j < n ensures types[i].index <= types[j].index && types[i].index != late.index {
      assert front[i] in front;
      assert !IndexLess(front[j], front[i]);
    }
    assert forall i :: 0 <= i < n ==> front[i] in front && types[i] == front[i];
    assert IsFirstUnder(types, late.index, n);
  }

  /** Whatever is added late at or above an index that is there changes nothing under it, duplicates included. */
  lemma LateAtOrAbove(front: seq<TypeInfo>, late: seq<TypeInfo>, index: nat, p: nat)
    requires Ordered(front, IndexLess) && p < |front| && front[p].index == index
    requires forall t :: t in late ==> t.index >= index
    ensures Partitioned(front + late, IndexBelow(index)) && NoHigherInFront(front + late, index)
  {
    var types := front + late;
    OrderIsEnough(front, index);
    assert forall i :: |front| <= i < |types| ==> types[i] == late[i - |front|] && types[i] in late;
    assert types[p].index == index;
    forall i: nat, j: nat | i < j && IsFirstUnder(types, index, j) ensures types[i].index < index {
      assert forall k :: 0 <= k <= p ==> types[k] == front[k];
      assert j <= p;
      assert IsFirstUnder(front, index, j);
    }
  }

  /** A list of types with these indices. */
  function TypesUnder(indices: seq<nat>): seq<TypeInfo> {
    seq(|indices|, i requires 0 <= i < |indices| => TypeInfo(indices[i], i))
  }

  /**
   Without the lower indices in front anything goes.  After 1 and 5 were sorted, 3 and 4 added late: 4 is
   found although 5 stands in front of it.
   */
  lemma FoundBehindHigher()
    ensures var types := TypesUnder([1, 5, 3, 4]);
            && !Partitioned(types, IndexBelow(4)) && !NoHigherInFront(types, 4)
            && TypeFound(types, 4) == FirstType(types, 4) == Some(types[3])
  {
    hide Search;
    var types := TypesUnder([1, 5, 3, 4]);
    SearchStep(types, IndexBelow(4), 0, 4);
    SearchStep(types, IndexBelow(4), 3, 4);
    SearchStep(types, IndexBelow(4), 3, 3);
    assert IndexBelow(4)(types[2]) && !IndexBelow(4)(types[1]);
    assert IsFirstUnder(types, 4, 3) && types[1].index == 5;
    FirstTypeIs(types, 4, 3);
  }

  /** And with 9, 3, 4, 6 and 7 added late, 9 is lost although it is above all others. */
  lemma LostThoughHighest()
    ensures var types := TypesUnder([1, 5, 9, 3, 4, 6, 7]);
            && !Partitioned(types, IndexBelow(9)) && NoHigherInFront(types, 9)
            && TypeFound(types, 9) == None && FirstType(types, 9) == Some(types[2])
  {
    hide Search;
    var types := TypesUnder([1, 5, 9, 3, 4, 6, 7]);
    SearchStep(types, IndexBelow(9), 0, 7);
    SearchStep(types, IndexBelow(9), 4, 7);
    SearchStep(types, IndexBelow(9), 6, 7);
    SearchStep(types, IndexBelow(9), 7, 7);
    assert IndexBelow(9)(types[3]) && !IndexBelow(9)(types[2]);
    assert IsFirstUnder(types, 9, 2);
    FirstTypeIs(types, 9, 2);
  }

  // ------------------------------------------------ address lookup

  /** Indexed functions whose range contains the address: what a linear scan looks at. */
  predicate IsCandidate(s: Symbol, rva: nat) {
    s.kind.IsFunction() && s.rva != 0 && s.Contains(rva)
  }

  /** Best candidate: greatest start, then smallest size. */
  predicate IsBest(symbols: seq<Symbol>, s: Symbol, rva: nat) {
    && s in symbols && IsCandidate(s, rva)
    && forall t :: t in symbols && IsCandidate(t, rva) ==> t.rva < s.rva || (t.rva == s.rva && s.size <= t.size)
  }

  /**
   The scan gives up at a sized function that ends before the address and starts more than
   0x100000 bytes below it.  Such a function hides the candidates that start at or below it.
   */
  predicate Hides(g: Symbol, s: Symbol, rva: nat) {
    && g.kind.IsFunction() && g.size != 0 && !g.Contains(rva)
    && s.rva <= g.rva <= rva && rva - g.rva > SCAN_LIMIT
  }

  predicate Hidden(symbols: seq<Symbol>, s: Symbol, rva: nat) {
    exists g :: g in symbols && Hides(g, s, rva)
  }

  /** A function reaches from its start over its size; one without a size is its start alone. */
  lemma ContainsIsRange(s: Symbol, address: nat)
    ensures s.Contains(address) <==> s.rva <= address < s.rva + Max(s.size, 1)
  {
  }

  /** Which kinds are functions, and in which order kinds at one address are listed. */
  lemma KindsInOrder(i: nat)
    requires i < 12
    ensures var kinds := [Unknown, Function, PublicFunction, Thunk, GlobalVariable, StaticVariable, ThreadLocal, Label,
                          Constant, UserDefinedType, LocalVariable, Parameter];
            kinds[i].Underlying() == i && (kinds[i].IsFunction() <==> 1 <= i <= 3)
  {
  }

  /** Only a function of at least 0x100002 bytes can be hidden. */
  lemma OnlyBigFunctionsHidden(symbols: seq<Symbol>, s: Symbol, rva: nat)
    requires IsCandidate(s, rva) && Hidden(symbols, s, rva)
    ensures s.size >= 0x10_0002
  {
  }

  /** One of exactly that size is hidden at its last byte by a small one at the same start, and not before. */
  lemma FunctionIsLost()
    ensures var big := Symbol(0, 0, 0, 0, 0, Function, 1, 0x10_0002);
            var small := Symbol(1, 0, 0, 0, 0, Function, 1, 1);
            && IsBest([big, small], big, 0x10_0002) && Hidden([big, small], big, 0x10_0002)
            && IsBest([big, small], big, 0x10_0001) && !Hidden([big, small], big, 0x10_0001)
  {
    var big := Symbol(0, 0, 0, 0, 0, Function, 1, 0x10_0002);
    var small := Symbol(1, 0, 0, 0, 0, Function, 1, 1);
    assert small in [big, small] && Hides(small, big, 0x10_0002);
  }

  predicate NoBigFunctions(symbols: seq<Symbol>) {
    forall s :: s in symbols && s.kind.IsFunction() ==> s.size < 0x10_0002
  }

  /** Without big functions a lookup that loses only hidden candidates loses none. */
  lemma NothingIsLost(symbols: seq<Symbol>, rva: nat, r: Option<Symbol>)
    requires NoBigFunctions(symbols)
    requires r.Some? ==> IsBest(symbols, r.value, rva)
    requires r.None? ==> forall s :: s in symbols && IsCandidate(s, rva) ==> Hidden(symbols, s, rva)
    ensures r.Some? <==> exists s :: s in symbols && IsCandidate(s, rva)
  {
    forall s | s in symbols && IsCandidate(s, rva) ensures !Hidden(symbols, s, rva) {
      if Hidden(symbols, s, rva) {
        OnlyBigFunctionsHidden(symbols, s, rva);
      }
    }
  }

  // ------------------------------------------------ inline stacks

  predicate WiderSpan(a: InlineSite, b: InlineSite) { a.Span() > b.Span() }

  predicate NestedOrDisjoint(sites: seq<InlineSite>) {
    forall a, b :: a in sites && b in sites ==> a.DisjointFrom(b) || a.Encloses(b) || b.Encloses(a)
  }

  predicate InRange(sites: seq<InlineSite>) {
    forall s :: s in sites ==> s.startRva <= MAX_UINT64 && s.endRva <= MAX_UINT64
  }

  /** The frames `InlineStack` returns: the covering sites, widest first. */
  function Frames(sites: seq<InlineSite>, rva: nat): seq<InlineSite> {
    Sorted(Filter(sites, (s: InlineSite) => s.Covers(rva)), WiderSpan)
  }

  lemma {:induction false} FilterKeepsOrder<T(!new)>(s: seq<T>, p: T -> bool, less: (T, T) -> bool)
    requires Ordered(s, less)
    ensures Ordered(Filter(s, p), less)
  {
    if s == [] {
    } else {
      FilterKeepsOrder(s[..|s| - 1], p, less);
      var front := Filter(s[..|s| - 1], p);
      assert forall i :: 0 <= i < |front| ==> front[i] in front;
      assert forall x :: x in front ==> exists k :: 0 <= k < |s| - 1 && s[k] == x;
    }
  }

  /** Two elements of a class that a filter puts in order are in that order in the whole list. */
  lemma {:induction false} OrderOfClass<T(!new)>(s: seq<T>, p: T -> bool, less: (T, T) -> bool, i: nat, j: nat)
    requires i < j < |s| && p(s[i]) && p(s[j]) && Ordered(Filter(s, p), less)
    ensures !less(s[j], s[i])
  {
    var n := |s| - 1;
    var front := Filter(s[..n], p);
    assert Filter(s, p) == front + if p(s[n]) then [s[n]] else [];
    if j < n {
      assert forall k :: 0 <= k < |front| ==> Filter(s, p)[k] == front[k];
      OrderOfClass(s[..n], p, less, i, j);
    } else {
      assert s[..n][i] == s[i] && s[i] in front;
      var k :| 0 <= k < |front| && front[k] == s[i];
      assert Filter(s, p)[k] == s[i] && Filter(s, p)[|front|] == s[j];
    }
  }

  lemma SpanOrder()
    ensures StrictWeakOrder(WiderSpan) && StrictWeakOrder(SiteLess)
    ensures StrictWeakOrder(AddressLess) && StrictWeakOrder(IndexLess)
  {
  }

  /** From its start up to its end, or without end; a site of zeros holds nothing. */
  predicate InFrame(site: InlineSite, rva: nat) {
    if site.endRva > 0 then site.startRva <= rva < site.endRva else 0 < site.startRva <= rva
  }

  /** The stack is exactly the covering sites, with multiplicity. */
  lemma FramesAreCoveringSites(sites: seq<InlineSite>, rva: nat)
    ensures multiset(Frames(sites, rva)) == multiset(Filter(sites, (s: InlineSite) => s.Covers(rva)))
    ensures forall s :: s in Frames(sites, rva) <==> s in sites && InFrame(s, rva)
  {
    var covering := Filter(sites, (s: InlineSite) => s.Covers(rva));
    SortedPermutes(covering, WiderSpan);
    forall s ensures s in Frames(sites, rva) <==> s in sites && InFrame(s, rva) {
      SortedMembers(covering, WiderSpan, s);
    }
  }

  /** Main result: over a finalized site table, each frame's range encloses the ranges of all later frames. */
  lemma FramesNest(sites: seq<InlineSite>, rva: nat, i: nat, j: nat)
    requires Ordered(sites, SiteLess) && NestedOrDisjoint(sites) && InRange(sites)
    requires i < j < |Frames(sites, rva)|
    ensures Frames(sites, rva)[i].Encloses(Frames(sites, rva)[j])
  {
    var covers := (s: InlineSite) => s.Covers(rva);
    var open := (s: InlineSite) => s.endRva == 0 && s.startRva != 0;
    var covering, frames := Filter(sites, covers), Frames(sites, rva);
    var a, b := frames[i], frames[j];
    FramesAreCoveringSites(sites, rva);
    assert a in frames && b in frames;
    SpanOrder();
    SortedOrders(covering, WiderSpan);
    assert !WiderSpan(b, a);
    if open(a) && open(b) {
      FilterKeepsOrder(sites, covers, SiteLess);
      FilterKeepsOrder(covering, open, SiteLess);
      SortedIsStable(covering, WiderSpan, open);
      OrderOfClass(frames, open, SiteLess, i, j);
    }
  }
}
