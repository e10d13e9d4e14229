/**
 The dynamic array over raw storage.  A slot of the storage is dead or holds a live object; constructing
 over a live object, or destroying or moving from a dead slot, is a misuse that the model records.
 */
module Vector {
  import opened Core
  import opened Sorting
  import opened StringStorage

  datatype Slot<+T> = Dead | Live(value: T)

  /** What is left of a sequence when the elements that satisfy `drop` are taken out. */
  function Kept<T>(s: seq<T>, drop: T -> bool): (kept: seq<T>)
    ensures |kept| <= |s|
  {
    if s == [] then []
    else Kept(s[..|s| - 1], drop) + if drop(s[|s| - 1]) then [] else [s[|s| - 1]]
  }

  lemma InsertedAt<T>(s: seq<T>, index: nat, value: T)
    requires index <= |s|
    ensures var r := Inserted(s, index, [value]);
            |r| == |s| + 1
              && forall k :: 0 <= k < |r| ==> r[k] == if k < index then s[k] else if k == index then value else s[k - 1]
  {
  }

  lemma ErasedAt<T>(s: seq<T>, index: nat, count: nat)
    requires index + count <= |s|
    ensures var r := Erased(s, index, count);
            |r| == |s| - count && forall k :: 0 <= k < |r| ==> r[k] == if k < index then s[k] else s[k + count]
  {
  }

  lemma NothingKept<T>(drop: T -> bool)
    ensures Kept([], drop) == []
  {
  }

  lemma KeptOne<T>(s: seq<T>, last: T, drop: T -> bool)
    ensures Kept(s + [last], drop) == Kept(s, drop) + if drop(last) then [] else [last]
  {
    assert (s + [last])[..|s|] == s;
  }

  /** Capacity 8 first, then doubled. */
  function Grown(capacity: nat): nat { if capacity != 0 then capacity * 2 else 8 }

  /** A range to erase that is empty, or whose end wraps around 64 bits. */
  predicate IsBadRange(index: Word64, count: Word64) { count == 0 || index + count > MAX_UINT64 }

  class Vector<T> {
    var slots: array<Slot<T>>
    var size: nat
    /** A live slot has been constructed over, or a dead one destroyed or read. */
    var misuse: bool
    /** How many elements reallocation has moved. */
    var relocated: nat
    ghost var contents: seq<T>

    /** Slots [0, size) are live and hold the contents; all others are dead. */
    ghost predicate Valid()
      reads this, slots
    {
      && size == |contents| <= slots.Length
      && (forall i :: 0 <= i < size ==> slots[i] == Live(contents[i]))
      && (forall i :: size <= i < slots.Length ==> slots[i] == Dead)
    }

    constructor ()
      ensures Valid() && contents == [] && slots.Length == 0 && !misuse && relocated == 0 && fresh(slots)
    {
      slots := new Slot<T>[0](_ => Dead);
      size, misuse, relocated, contents := 0, false, 0, [];
    }

    method Construct(i: nat, value: T)
      requires i < slots.Length
      modifies slots, this`misuse
      ensures forall k :: 0 <= k < slots.Length ==> slots[k] == if k == i then Live(value) else old(slots[k])
      ensures misuse == (old(misuse) || old(slots[i]).Live?)
    {
      if slots[i].Live? {
        misuse := true;
      }
      slots[i] := Live(value);
    }

    method Destroy(i: nat)
      requires i < slots.Length
      modifies slots, this`misuse
      ensures forall k :: 0 <= k < slots.Length ==> slots[k] == if k == i then Dead else old(slots[k])
      ensures misuse == (old(misuse) || old(slots[i]).Dead?)
    {
      if slots[i].Dead? {
        misuse := true;
      }
      slots[i] := Dead;
    }

    /** `Construct(to, move(from)); Destroy(from)`: the object moved from is still alive until it is destroyed. */
    method Relocate(from: nat, to: nat)
      requires from < slots.Length && to < slots.Length && slots[from].Live?
      modifies slots, this`misuse
      ensures forall k :: 0 <= k < slots.Length ==>
        slots[k] == if k == from then Dead else if k == to then old(slots[from]) else old(slots[k])
      ensures misuse == (old(misuse) || old(slots[to]).Live?)
    {
      Construct(to, slots[from].value);
      Destroy(from);
    }

    method DestroyRange(first: nat, last: nat)
      requires first <= last <= slots.Length && forall i :: first <= i < last ==> slots[i].Live?
      modifies slots, this`misuse
      ensures misuse == old(misuse)
      ensures forall i :: 0 <= i < slots.Length ==> slots[i] == if first <= i < last then Dead else old(slots[i])
    {
      for i := first to last
        invariant slots == old(slots) && misuse == old(misuse)
        invariant forall k :: 0 <= k < slots.Length ==> slots[k] == if first <= k < i then Dead else old(slots[k])
      {
        Destroy(i);
      }
    }

    /** Every object in the storage has been destroyed. */
    static ghost predicate AllDead(slots: array<Slot<T>>)
      reads slots
    {
      forall i :: 0 <= i < slots.Length ==> slots[i] == Dead
    }

    /** Moves every element to new storage. */
    method Reallocate(newCapacity: nat)
      requires Valid() && size <= newCapacity
      modifies this, slots
      ensures Valid() && fresh(slots) && slots.Length == newCapacity
      ensures contents == old(contents) && misuse == old(misuse) && relocated == old(relocated) + old(size)
      ensures AllDead(old(slots))
    {
      var data := new Slot<T>[newCapacity](_ => Dead);
      for i := 0 to size
        invariant size == old(size) && contents == old(contents) && slots == old(slots) && misuse == old(misuse)
        invariant relocated == old(relocated) + i
        invariant forall k :: 0 <= k < newCapacity ==> data[k] == if k < i then Live(contents[k]) else Dead
        invariant forall k {:trigger slots[k]} :: 0 <= k < slots.Length ==>
          slots[k] == if i <= k < size then Live(contents[k]) else Dead
      {
        data[i] := slots[i];
        Destroy(i);
        relocated := relocated + 1;
      }
      slots := data;
    }

    method Reserve(newCapacity: nat)
      requires Valid()
      modifies this, slots
      ensures Valid() && (slots == old(slots) || fresh(slots)) && slots.Length >= newCapacity
      ensures contents == old(contents) && misuse == old(misuse)
      ensures if newCapacity <= old(slots.Length) then slots == old(slots) && relocated == old(relocated)
              else slots.Length == newCapacity && relocated == old(relocated) + size
      ensures newCapacity > old(slots.Length) ==> AllDead(old(slots))
    {
      if newCapacity <= slots.Length {
        return;
      }
      Reallocate(newCapacity);
    }

    method EnsureCapacityForOneMore()
      requires Valid()
      modifies this, slots
      ensures Valid() && (slots == old(slots) || fresh(slots)) && size < slots.Length
      ensures contents == old(contents) && misuse == old(misuse)
      ensures old(size) < old(slots.Length) ==> slots == old(slots) && relocated == old(relocated)
      ensures old(size) == old(slots.Length) ==>
        && relocated == old(relocated) + old(size) && AllDead(old(slots))
        && slots.Length == if old(size) == 0 then 8 else old(size) + old(size)
    {
      if size < slots.Length {
        return;
      }
      Reserve(Grown(slots.Length));
    }

    method PushBack(value: T)
      requires Valid()
      modifies this, slots
      ensures Valid() && (slots == old(slots) || fresh(slots))
      ensures contents == old(contents) + [value] && misuse == old(misuse)
      ensures old(size) < old(slots.Length) ==> slots == old(slots) && relocated == old(relocated)
      ensures old(size) == old(slots.Length) ==>
        relocated == old(relocated) + old(size) && slots.Length == Grown(old(slots.Length))
    {
      EnsureCapacityForOneMore();
      Construct(size, value);
      size := size + 1;
      contents := contents + [value];
    }

    method PopBack() returns (ok: bool)
      requires Valid()
      modifies this, slots
      ensures Valid() && slots == old(slots) && ok == (old(size) != 0)
      ensures contents == (if ok then old(contents)[..old(size) - 1] else old(contents)) && misuse == old(misuse)
    {
      if size == 0 {
        return false;
      }
      size := size - 1;
      Destroy(size);
      contents := contents[..size];
      return true;
    }

    method Clear()
      requires Valid()
      modifies this, slots
      ensures Valid() && slots == old(slots) && contents == [] && misuse == old(misuse)
    {
      DestroyRange(0, size);
      size, contents := 0, [];
    }

    method ShrinkToFit()
      requires Valid()
      modifies this, slots
      ensures Valid() && (slots == old(slots) || fresh(slots)) && slots.Length == size
      ensures contents == old(contents) && misuse == old(misuse)
    {
      if size == slots.Length {
        return;
      }
      if size == 0 {
        slots := new Slot<T>[0](_ => Dead);
        return;
      }
      Reallocate(size);
    }

    method Resize(newSize: nat, value: T)
      requires Valid()
      modifies this, slots
      ensures Valid() && (slots == old(slots) || fresh(slots)) && misuse == old(misuse)
      ensures |contents| == newSize
      ensures forall i :: 0 <= i < newSize ==> contents[i] == if i < |old(contents)| then old(contents)[i] else value
    {
      if newSize < size {
        DestroyRange(newSize, size);
        size := newSize;
        contents := contents[..newSize];
        return;
      }
      Reserve(newSize);
      while size < newSize
        invariant Valid() && size <= newSize <= slots.Length && (slots == old(slots) || fresh(slots))
        invariant misuse == old(misuse) && |old(contents)| <= size
        invariant forall i :: 0 <= i < size ==> contents[i] == if i < |old(contents)| then old(contents)[i] else value
      {
        Construct(size, value);
        size := size + 1;
        contents := contents + [value];
      }
    }

    method Assign(values: seq<T>)
      requires Valid()
      modifies this, slots
      ensures Valid() && (slots == old(slots) || fresh(slots)) && contents == values && misuse == old(misuse)
    {
      Clear();
      Reserve(|values|);
      for i := 0 to |values|
        invariant size == 0 && |values| <= slots.Length
        invariant misuse == old(misuse) && (slots == old(slots) || fresh(slots))
        invariant forall k :: 0 <= k < slots.Length ==> slots[k] == if k < i then Live(values[k]) else Dead
      {
        Construct(i, values[i]);
      }
      size, contents := |values|, values;
    }

    method Append(values: seq<T>)
      requires Valid()
      modifies this, slots
      ensures Valid() && (slots == old(slots) || fresh(slots)) && misuse == old(misuse)
      ensures contents == old(contents) + values
    {
      Reserve(size + |values|);
      for i := 0 to |values|
        invariant Valid() && misuse == old(misuse) && (slots == old(slots) || fresh(slots))
        invariant |old(contents)| + |values| <= slots.Length && contents == old(contents) + values[..i]
      {
        Construct(size, values[i]);
        size := size + 1;
        contents := contents + [values[i]];
      }
    }

    /** Opens a slot by relocating the tail upwards, last element first. */
    method OpenSlot(index: nat)
      requires Valid() && index <= size < slots.Length
      modifies slots, this`misuse
      ensures misuse == old(misuse) && OpenAt(index)
    {
      var i := size;
      while i > index
        invariant index <= i <= size && misuse == old(misuse)
        invariant forall k {:trigger slots[k]} :: 0 <= k < slots.Length ==>
          slots[k] == if k < i then Live(contents[k]) else if i < k <= size then Live(contents[k - 1]) else Dead
      {
        Relocate(i - 1, i);
        i := i - 1;
      }
    }

    /** What slots hold while the one at `index` is open. */
    ghost predicate OpenAt(index: nat)
      reads this, slots
    {
      && index <= size == |contents| < slots.Length
      && forall k {:trigger slots[k]} :: 0 <= k < slots.Length ==>
           slots[k] == if k < index then Live(contents[k])
                       else if index < k <= size then Live(contents[k - 1]) else Dead
    }

    /** Constructs the new element in the open slot. */
    method FillSlot(index: nat, value: T)
      requires OpenAt(index)
      modifies this`size, this`contents, this`misuse, slots
      ensures Valid() && misuse == old(misuse) && contents == Inserted(old(contents), index, [value])
    {
      ghost var was := contents;
      InsertedAt(was, index, value);
      Construct(index, value);
      size := size + 1;
      contents := Inserted(was, index, [value]);
    }

    method Insert(index: nat, value: T) returns (ok: bool)
      requires Valid()
      modifies this, slots
      ensures Valid() && (slots == old(slots) || fresh(slots)) && misuse == old(misuse)
      ensures ok == (index <= |old(contents)|)
      ensures contents == if ok then Inserted(old(contents), index, [value]) else old(contents)
    {
      if index > size {
        return false;
      }
      EnsureCapacityForOneMore();
      OpenSlot(index);
      FillSlot(index, value);
      return true;
    }

    /**
     `Append` of an element of the vector itself, given by reference: it is read after the elements may
     have moved to new storage, so it is right exactly when there was room.
     */
    method PushBackOwn(from: nat)
      requires Valid() && from < size
      modifies this, slots
      ensures misuse == (old(misuse) || old(size) == old(slots.Length))
      ensures old(size) < old(slots.Length) ==> Valid() && contents == old(contents) + [old(contents)[from]]
    {
      var storage := slots;
      EnsureCapacityForOneMore();
      if storage[from].Dead? {
        misuse := true;
        return;
      }
      Construct(size, storage[from].value);
      contents := contents + [storage[from].value];
      size := size + 1;
    }

    /**
     `Insert` of an element of the vector itself, given by reference: it is read after the tail has been
     shifted, where the element was.  With room that is the element if it stands in front of the index and
     the one before it if it stands behind; at the index itself, or without room, it is a dead object.
     */
    method InsertOwn(index: nat, from: nat) returns (ok: bool)
      requires Valid() && from < size
      modifies this, slots
      ensures ok == (index <= |old(contents)|)
      ensures misuse == (old(misuse) || (ok && (old(size) == old(slots.Length) || from == index)))
      ensures !ok ==> Valid() && contents == old(contents)
      ensures ok && old(size) < old(slots.Length) && from != index ==>
        && Valid()
        && contents == Inserted(old(contents), index, [old(contents)[if from < index then from else from - 1]])
    {
      if index > size {
        return false;
      }
      hide Inserted;
      var storage := slots;
      EnsureCapacityForOneMore();
      OpenSlot(index);
      if storage[from].Dead? {
        misuse := true;
        return true;
      }
      FillSlot(index, storage[from].value);
      return true;
    }

    method Erase(index: nat) returns (ok: bool)
      requires Valid()
      modifies this, slots
      ensures Valid() && slots == old(slots) && misuse == old(misuse)
      ensures ok == (index < |old(contents)|)
      ensures contents == if ok then Erased(old(contents), index, 1) else old(contents)
    {
      if index >= size {
        return false;
      }
      ghost var was := contents;
      Destroy(index);
      var i := index;
      while i + 1 < size
        invariant index <= i < size == |was| && slots == old(slots) && misuse == old(misuse) && contents == was
        invariant forall k {:trigger slots[k]} :: 0 <= k < slots.Length ==>
          slots[k] == if k < index then Live(was[k]) else if k < i then Live(was[k + 1])
                      else if i < k < size then Live(was[k]) else Dead
      {
        Relocate(i + 1, i);
        i := i + 1;
      }
      size := size - 1;
      contents := Erased(was, index, 1);
      return true;
    }

    /** Relocates what stands behind a range of `gap` dead slots down over it. */
    method CloseSlots(index: nat, gap: nat)
      requires index < size && index + gap <= size == |contents| <= slots.Length
      requires forall k {:trigger slots[k]} :: 0 <= k < slots.Length ==>
        slots[k] == if k < size && !(index <= k < index + gap) then Live(contents[k]) else Dead
      modifies slots, this`misuse
      ensures misuse == (old(misuse) || gap == 0)
      ensures forall k {:trigger slots[k]} :: 0 <= k < slots.Length ==>
        slots[k] == if k < index then Live(contents[k])
                    else if gap > 0 && k < size - gap then Live(contents[k + gap]) else Dead
    {
      var i := index;
      while i + gap < size
        invariant index <= i && i + gap <= size && misuse == (old(misuse) || (gap == 0 && i > index))
        invariant forall k {:trigger slots[k]} :: 0 <= k < slots.Length ==>
          slots[k] == if k < index then Live(contents[k]) else if gap > 0 && k < i then Live(contents[k + gap])
                      else if i + gap <= k < size then Live(contents[k]) else Dead
      {
        Relocate(i + gap, i);
        i := i + 1;
      }
    }

    /** Destroys a range and closes the gap. */
    method TakeOut(index: nat, gap: nat)
      requires Valid() && index < size && index + gap <= size
      modifies this, slots
      ensures slots == old(slots) && misuse == (old(misuse) || gap == 0)
      ensures gap == 0 ==> size == old(size) && forall k :: index <= k < size ==> slots[k].Dead?
      ensures gap > 0 ==> Valid() && contents == Erased(old(contents), index, gap)
    {
      ghost var was := contents;
      DestroyRange(index, index + gap);
      CloseSlots(index, gap);
      size := size - gap;
      if gap > 0 {
        ErasedAt(was, index, gap);
        contents := Erased(was, index, gap);
      }
    }

    /**
     Erasing a range.  With a count of 0 inside the vector the closing loop relocates every element onto
     itself: it constructs over a live object and then destroys it.  With an end that wraps around 64
     bits the count is not clipped, and objects past the last are destroyed.  There is no other misuse.
     */
    method EraseRange(index: Word64, count: Word64) returns (ok: bool)
      requires Valid()
      modifies this, slots
      ensures slots == old(slots) && ok == (index < |old(contents)|)
      ensures misuse == (old(misuse) || (ok && IsBadRange(index, count)))
      ensures Valid() <==> !(ok && IsBadRange(index, count))
      ensures ok && IsBadRange(index, count) ==> size == old(size) && forall k :: index <= k < size ==> slots[k].Dead?
      ensures !(ok && IsBadRange(index, count)) ==>
        contents == if ok then Erased(old(contents), index, Min(count, |old(contents)| - index)) else old(contents)
    {
      if index >= size {
        return false;
      }
      var end := (index + count) % (MAX_UINT64 + 1);
      var gap: nat := if end > size then size - index else count;
      if end < index {
        DestroyRange(index, size);
        assert slots[index].Dead?;
        misuse := true;
        return true;
      }
      TakeOut(index, gap);
      assert gap == 0 ==> slots[index].Dead?;
      return true;
    }

    /** `Data[to] = value`: assignment to a live object. */
    method Put(to: nat, value: T)
      requires to < slots.Length
      modifies slots, this`misuse
      ensures forall k :: 0 <= k < slots.Length ==> slots[k] == if k == to then Live(value) else old(slots[k])
      ensures misuse == (old(misuse) || old(slots[to]).Dead?)
    {
      if slots[to].Dead? {
        misuse := true;
      }
      slots[to] := Live(value);
    }

    /** One element assigned to another. */
    method Shift(from: nat, to: nat)
      requires Valid() && from < size && to < size
      modifies this`misuse, this`contents, slots
      ensures Valid() && misuse == old(misuse) && contents == old(contents)[to := old(contents)[from]]
    {
      Put(to, slots[from].value);
      contents := contents[to := contents[from]];
    }

    method MoveDown(from: nat, to: nat)
      requires Valid() && to <= from < size
      modifies this`misuse, this`contents, slots
      ensures Valid() && misuse == old(misuse) && contents == old(contents)[to := old(contents)[from]]
    {
      if to != from {
        Shift(from, to);
      }
    }

    /** A key moved out before is assigned to an element. */
    method Overwrite(to: nat, key: T)
      requires Valid() && to < size
      modifies this`misuse, this`contents, slots
      ensures Valid() && misuse == old(misuse) && contents == old(contents)[to := key]
    {
      Put(to, key);
      contents := contents[to := key];
    }

    /** One round of the sort: shifts greater elements up until the key at `i` finds its place. */
    method InsertSorted(i: nat, less: (T, T) -> bool)
      requires Valid() && i < size
      modifies this`misuse, this`contents, slots
      ensures Valid() && misuse == old(misuse)
      ensures contents == Sorting.Insert(old(contents)[..i], old(contents)[i], less) + old(contents)[i + 1..]
    {
      assert size == |contents|;
      hide Sorting.Insert, Shifted;
      ghost var prefix, rest := contents[..i], contents[i + 1..];
      var key := At(i);
      ShiftStart(prefix, key, less);
      var j := i;
      assert contents[i + 1..] == [] + rest && prefix[i..] == [];
      while j > 0 && less(key, At(j - 1))
        invariant Valid() && misuse == old(misuse) && j <= i < size
        invariant OpenedAt(contents, j, prefix, rest) && Shifted(prefix, key, less, j)
      {
        ShiftStep(prefix, key, less, j);
        OpenedBelow(contents, j, prefix, rest);
        Shift(j - 1, j);
        j := j - 1;
      }
      ShiftDone(prefix, key, less, j);
      ClosedBy(contents, j, prefix, rest, key);
      Overwrite(j, key);
    }

    /** The element at a position. */
    function At(i: nat): (value: T)
      reads this, slots
      requires Valid() && i < size
      ensures i < |contents| && value == contents[i]
    {
      slots[i].value
    }

    /** The insertion sort, by assignments between live objects. */
    method Sort(less: (T, T) -> bool)
      requires Valid()
      modifies this`misuse, this`contents, slots
      ensures Valid() && misuse == old(misuse) && contents == Sorted(old(contents), less)
    {
      ghost var was := contents;
      assert |was| == size;
      if size != 0 {
        SortedOne(was, less);
        for i := 1 to size
          invariant Valid() && misuse == old(misuse) && size == |was|
          invariant contents == Sorted(was[..i], less) + was[i..]
        {
          SortedPermutes(was[..i], less);
          SortedNext(was, i, less);
          InsertSorted(i, less);
        }
        assert was[..size] == was && was[size..] == [];
      }
    }

    /** Moves the elements that stay to the front. */
    method Squeeze(drop: T -> bool) returns (write: nat)
      requires Valid()
      modifies this`misuse, this`contents, slots
      ensures Valid() && misuse == old(misuse) && |contents| == |old(contents)|
      ensures write <= size && contents[..write] == Kept(old(contents), drop)
    {
      hide Kept;
      ghost var was := contents;
      write := 0;
      NothingKept(drop);
      assert was[..0] == [] && contents[..0] == [];
      for read := 0 to size
        invariant write <= read <= size == |was| == |contents| && Valid() && misuse == old(misuse)
        invariant contents[..write] == Kept(was[..read], drop)
        invariant forall k :: read <= k < size ==> contents[k] == was[k]
      {
        assert was[..read + 1] == was[..read] + [was[read]];
        KeptOne(was[..read], was[read], drop);
        ghost var kept := contents[..write];
        if !drop(slots[read].value) {
          MoveDown(read, write);
          assert contents[..write + 1] == kept + [was[read]];
          write := write + 1;
        }
      }
      assert was[..size] == was;
    }

    method RemoveIf(drop: T -> bool) returns (removed: nat)
      requires Valid()
      modifies this, slots
      ensures Valid() && slots == old(slots) && misuse == old(misuse)
      ensures contents == Kept(old(contents), drop) && removed == |old(contents)| - |contents|
    {
      var write := Squeeze(drop);
      ghost var kept := contents[..write];
      removed := size - write;
      while size > write
        invariant Valid() && write <= size && slots == old(slots) && misuse == old(misuse)
        invariant contents[..write] == kept
      {
        var _ := PopBack();
      }
      assert contents[..write] == contents;
    }
  }

  /** A list with room for a key at `j`: what stands there does not matter any more. */
  predicate OpenedAt<T(==)>(s: seq<T>, j: nat, prefix: seq<T>, rest: seq<T>) {
    j <= |prefix| && |s| == |prefix| + 1 + |rest| && s[..j] == prefix[..j] && s[j + 1..] == prefix[j..] + rest
  }

  lemma OpenedBelow<T>(s: seq<T>, j: nat, prefix: seq<T>, rest: seq<T>)
    requires OpenedAt(s, j, prefix, rest) && j > 0
    ensures s[j - 1] == prefix[j - 1] && OpenedAt(s[j := s[j - 1]], j - 1, prefix, rest)
  {
    var after := s[j := s[j - 1]];
    assert s[j - 1] == s[..j][j - 1];
    assert after[j..] == [s[j - 1]] + s[j + 1..];
    assert [prefix[j - 1]] + (prefix[j..] + rest) == prefix[j - 1..] + rest;
    assert after[..j - 1] == s[..j][..j - 1];
  }

  lemma ClosedBy<T>(s: seq<T>, j: nat, prefix: seq<T>, rest: seq<T>, key: T)
    requires OpenedAt(s, j, prefix, rest)
    ensures s[j := key] == prefix[..j] + [key] + prefix[j..] + rest
  {
    assert s[j := key] == s[..j] + [key] + s[j + 1..];
    assert prefix[..j] + [key] + (prefix[j..] + rest) == prefix[..j] + [key] + prefix[j..] + rest;
  }

  lemma SortedOne<T>(s: seq<T>, less: (T, T) -> bool)
    requires s != []
    ensures s == Sorted(s[..1], less) + s[1..]
  {
    assert s[..1][..0] == [];
    assert Sorted(s[..1], less) == [s[0]];
  }

  /** What the next round starts from and leaves. */
  lemma SortedNext<T>(was: seq<T>, i: nat, less: (T, T) -> bool)
    requires i < |was| && |Sorted(was[..i], less)| == i
    ensures var now := Sorted(was[..i], less) + was[i..];
            && |now| == |was| && now[..i] == Sorted(was[..i], less) && now[i] == was[i] && now[i + 1..] == was[i + 1..]
            && Sorted(was[..i + 1], less) == Sorting.Insert(now[..i], now[i], less)
  {
    hide Sorting.Insert;
    assert was[..i + 1][..i] == was[..i];
  }

  /** Sorting a list held by value. */
  method SortList<T>(s: seq<T>, less: (T, T) -> bool) returns (sorted: seq<T>)
    ensures sorted == Sorted(s, less)
  {
    var v := new Vector<T>();
    v.Assign(s);
    v.Sort(less);
    sorted := seq(v.size, i requires 0 <= i < v.size && v.Valid() reads v, v.slots => v.At(i));
  }

  // ------------------------------------------------------------ runs

  datatype Operation<!T> =
    | PushBack(value: T) | PopBack | Insert(index: nat, value: T) | Erase(index: nat)
    | EraseRange(begin: Word64, count: Word64) | RemoveIf(drop: T -> bool) | Resize(newSize: nat, value: T)
    | Assign(values: seq<T>) | Append(values: seq<T>) | Clear | Reserve(capacity: nat) | ShrinkToFit
    | Sort(less: (T, T) -> bool)

  function ResizedTo<T>(s: seq<T>, n: nat, value: T): (r: seq<T>)
    ensures |r| == n && forall i :: 0 <= i < n ==> r[i] == if i < |s| then s[i] else value
  {
    if n <= |s| then s[..n] else s + Fill(value, n - |s|)
  }

  /** What an operation means for the sequence of elements. */
  function After<T>(s: seq<T>, op: Operation<T>): seq<T> {
    match op
    case PushBack(value) => s + [value]
    case PopBack => if s == [] then [] else s[..|s| - 1]
    case Insert(index, value) => if index <= |s| then Inserted(s, index, [value]) else s
    case Erase(index) => if index < |s| then Erased(s, index, 1) else s
    case EraseRange(index, count) => if index < |s| then Erased(s, index, Min(count, |s| - index)) else s
    case RemoveIf(drop) => Kept(s, drop)
    case Resize(newSize, value) => ResizedTo(s, newSize, value)
    case Assign(values) => values
    case Append(values) => s + values
    case Clear => []
    case Reserve(_) => s
    case ShrinkToFit => s
    case Sort(less) => Sorted(s, less)
  }

  /** Erasing nothing, or a range whose end wraps around, from the inside of a vector is all that breaks it. */
  predicate Harmless<T>(s: seq<T>, op: Operation<T>) {
    !(op.EraseRange? && op.begin < |s| && IsBadRange(op.begin, op.count))
  }

  function AfterAll<T>(s: seq<T>, ops: seq<Operation<T>>): seq<T>
    decreases |ops|
  {
    if ops == [] then s else AfterAll(After(s, ops[0]), ops[1..])
  }

  predicate AllHarmless<T>(s: seq<T>, ops: seq<Operation<T>>)
    decreases |ops|
  {
    ops == [] || (Harmless(s, ops[0]) && AllHarmless(After(s, ops[0]), ops[1..]))
  }

  method Perform<T>(v: Vector<T>, op: Operation<T>)
    requires v.Valid()
    modifies v, v.slots
    ensures v.slots == old(v.slots) || fresh(v.slots)
    ensures v.misuse == (old(v.misuse) || !Harmless(old(v.contents), op))
    ensures Harmless(old(v.contents), op) ==> v.Valid() && v.contents == After(old(v.contents), op)
  {
    match op
    case PushBack(value) => v.PushBack(value);
    case PopBack => var _ := v.PopBack();
    case Insert(index, value) => var _ := v.Insert(index, value);
    case Erase(index) => var _ := v.Erase(index);
    case EraseRange(index, count) => var _ := v.EraseRange(index, count);
    case RemoveIf(drop) => var _ := v.RemoveIf(drop);
    case Resize(newSize, value) =>
      v.Resize(newSize, value);
      assert v.contents == ResizedTo(old(v.contents), newSize, value);
    case Assign(values) => v.Assign(values);
    case Append(values) => v.Append(values);
    case Clear => v.Clear();
    case Reserve(capacity) => v.Reserve(capacity);
    case ShrinkToFit => v.ShrinkToFit();
    case Sort(less) => v.Sort(less);
  }

  /**
   Main result: over every run from an empty vector, slots are constructed only when dead and destroyed
   only when live, and the contents are what the sequence operations say, exactly if the run never
   erases an empty range, or one whose end wraps around, from the inside.  A run is followed up to its first misuse.
   */
  method Run<T>(ops: seq<Operation<T>>) returns (v: Vector<T>)
    ensures v.misuse <==> !AllHarmless<T>([], ops)
    ensures AllHarmless<T>([], ops) ==> v.Valid() && v.contents == AfterAll([], ops)
  {
    v := new Vector<T>();
    for i := 0 to |ops|
      invariant fresh(v) && fresh(v.slots) && v.Valid() && !v.misuse
      invariant AllHarmless<T>([], ops) == AllHarmless(v.contents, ops[i..])
      invariant AfterAll<T>([], ops) == AfterAll(v.contents, ops[i..])
    {
      assert ops[i..][0] == ops[i] && ops[i..][1..] == ops[i + 1..];
      Perform(v, ops[i]);
      if v.misuse {
        return;
      }
    }
  }

  /** Main result on cost: appending n elements one by one to an empty vector relocates fewer than 2n. */
  method PushAll<T>(values: seq<T>) returns (v: Vector<T>)
    ensures v.Valid() && v.contents == values && !v.misuse
    ensures values != [] ==> v.relocated < 2 * |values|
    ensures v.slots.Length <= Max(8, 2 * |values|)
  {
    v := new Vector<T>();
    for i := 0 to |values|
      invariant fresh(v) && fresh(v.slots) && v.Valid() && !v.misuse && v.contents == values[..i]
      invariant if i == 0 then v.slots.Length == 0 && v.relocated == 0
                else v.slots.Length >= 8 && v.relocated == v.slots.Length - 8
      invariant v.slots.Length > 8 ==> v.slots.Length < 2 * i
    {
      v.PushBack(values[i]);
    }
  }
}
