/**
 What the operations of a vector mean, element by element and against each other.
 */
module VectorLaws {
  import opened Core
  import opened Sorting
  import opened StringStorage
  import opened Vector

  /** Each operation by the elements it leaves and where it leaves them. */
  predicate IsAfter<T(==)>(s: seq<T>, op: Operation<T>, r: seq<T>)
    requires !op.Sort? && !op.RemoveIf?
  {
    match op
    case PushBack(value) => |r| == |s| + 1 && (forall i :: 0 <= i < |s| ==> r[i] == s[i]) && r[|s|] == value
    case PopBack => |r| == Max(|s| - 1, 0) && forall i :: 0 <= i < |r| ==> r[i] == s[i]
    case Insert(index, value) =>
      if index > |s| then r == s
      else
        && |r| == |s| + 1 && r[index] == value && (forall i :: 0 <= i < index ==> r[i] == s[i])
        && forall i :: index < i <= |s| ==> r[i] == s[i - 1]
    case Erase(index) =>
      if index >= |s| then r == s
      else
        && |r| == |s| - 1 && (forall i :: 0 <= i < index ==> r[i] == s[i])
        && forall i :: index <= i < |r| ==> r[i] == s[i + 1]
    case EraseRange(index, count) =>
      if index >= |s| then r == s
      else
        && |r| == Max(|s| - count, index) && (forall i :: 0 <= i < index ==> r[i] == s[i])
        && forall i :: index <= i < |r| ==> r[i] == s[i + count]
    case Resize(n, value) => |r| == n && forall i :: 0 <= i < n ==> r[i] == if i < |s| then s[i] else value
    case Assign(values) => r == values
    case Append(values) =>
      && |r| == |s| + |values| && (forall i :: 0 <= i < |s| ==> r[i] == s[i])
      && forall i :: 0 <= i < |values| ==> r[|s| + i] == values[i]
    case Clear => r == []
    case Reserve(_) => r == s
    case ShrinkToFit => r == s
  }

  lemma MeaningHasElements<T>(s: seq<T>, op: Operation<T>)
    requires !op.Sort? && !op.RemoveIf?
    ensures IsAfter(s, op, After(s, op))
  {
  }

  lemma ElementsDecide<T>(s: seq<T>, op: Operation<T>, a: seq<T>, b: seq<T>)
    requires !op.Sort? && !op.RemoveIf? && IsAfter(s, op, a) && IsAfter(s, op, b)
    ensures a == b
  {
    assert |a| == |b|;
    forall i | 0 <= i < |a| ensures a[i] == b[i] {
      if op.Append? && i >= |s| {
        var k := i - |s|;
        assert a[|s| + k] == op.values[k] == b[|s| + k];
      }
    }
  }

  /** Main result: the meaning of an operation is the one sequence that has the right elements in the right places. */
  lemma MeaningByElement<T>(s: seq<T>, op: Operation<T>, r: seq<T>)
    requires !op.Sort? && !op.RemoveIf?
    ensures r == After(s, op) <==> IsAfter(s, op, r)
  {
    hide After, IsAfter;
    MeaningHasElements(s, op);
    if IsAfter(s, op, r) {
      ElementsDecide(s, op, r, After(s, op));
    }
  }

  /** Removing goes through the elements one by one and keeps those that are not to be dropped, in order. */
  lemma RemovalByElement<T>(a: seq<T>, x: T, b: seq<T>, drop: T -> bool)
    ensures After(a + b, RemoveIf(drop)) == After(a, RemoveIf(drop)) + After(b, RemoveIf(drop))
    ensures After([x], RemoveIf(drop)) == if drop(x) then [] else [x]
    ensures After<T>([], RemoveIf(drop)) == []
  {
    KeptConcat(a, b, drop);
    KeptOne([], x, drop);
    assert [] + [x] == [x];
  }

  lemma {:induction false} KeptConcat<T>(a: seq<T>, b: seq<T>, drop: T -> bool)
    ensures Kept(a + b, drop) == Kept(a, drop) + Kept(b, drop)
    decreases |b|
  {
    hide Kept;
    if b == [] {
      NothingKept(drop);
      assert a + b == a;
    } else {
      var front, last := b[..|b| - 1], b[|b| - 1];
      KeptConcat(a, front, drop);
      KeptOne(a + front, last, drop);
      KeptOne(front, last, drop);
      assert b == front + [last] && a + b == a + front + [last];
      var kept := if drop(last) then [] else [last];
      assert Kept(a, drop) + (Kept(front, drop) + kept) == Kept(a, drop) + Kept(front, drop) + kept;
    }
  }

  /** What goes in comes out again. */
  lemma WhatGoesInComesOut<T>(s: seq<T>, index: nat, value: T)
    requires index <= |s|
    ensures After(After(s, PushBack(value)), PopBack) == s
    ensures After(After(s, Insert(index, value)), Erase(index)) == s
    ensures After(s, Insert(|s|, value)) == After(s, PushBack(value))
  {
    assert (s + [value])[..|s|] == s;
    var r := After(s, Insert(index, value));
    assert r[..index] == s[..index] && r[index + 1..] == s[index..];
    assert s[..|s|] == s && s[|s|..] == [];
  }
}
