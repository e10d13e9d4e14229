/**
 `BasicString` over its NUL-terminated storage vector.  The storage is empty until the first
 operation that needs it; from then on it holds the text and exactly one terminator.
 */
module StringStorage {
  import opened Core

  function Inserted<T>(text: seq<T>, position: nat, piece: seq<T>): seq<T>
    requires position <= |text|
  {
    text[..position] + piece + text[position..]
  }

  function Erased<T>(text: seq<T>, position: nat, count: nat): seq<T>
    requires position + count <= |text|
  {
    text[..position] + text[position + count..]
  }

  /** `Vector::Resize` on the storage: shrinking drops the end, growing appends zero units. */
  function Resized(storage: seq<Byte>, n: nat): (r: seq<Byte>)
    ensures |r| == n
    ensures forall i :: 0 <= i < n ==> r[i] == if i < |storage| then storage[i] else 0
  {
    if n <= |storage| then storage[..n] else storage + Fill(0, n - |storage|)
  }

  class BasicString {
    var storage: seq<Byte>
    var size: nat
    /** Set by an access outside the storage, which the vector's unchecked `operator[]` lets happen. */
    ghost var badAccess: bool

    ghost predicate Valid()
      reads this
    {
      !badAccess && if storage == [] then size == 0 else |storage| == size + 1 && storage[size] == 0
    }

    function Text(): (text: seq<Byte>)
      reads this
      requires Valid()
      ensures |text| == size
    {
      storage[..size]
    }

    constructor ()
      ensures Valid() && storage == [] && Text() == []
    {
      storage, size, badAccess := [], 0, false;
    }

    method Resize(newSize: nat, unit: Byte)
      requires Valid()
      modifies this
      ensures Valid() && storage != []
      ensures Text() == if newSize <= old(size) then old(Text())[..newSize]
                        else old(Text()) + Fill(unit, newSize - old(size))
    {
      ghost var was := Text();
      storage := Resized(storage, newSize + 1);
      if newSize > size {
        for i := size to newSize
          invariant |storage| == newSize + 1 && size == |was| && !badAccess
          invariant forall k :: 0 <= k < i ==> storage[k] == if k < |was| then was[k] else unit
        {
          storage := storage[i := unit];
        }
      }
      size := newSize;
      storage := storage[size := 0];
    }

    method Clear()
      requires Valid()
      modifies this
      ensures Valid() && Text() == []
    {
      if storage != [] {
        storage := Resized(storage, 1)[0 := 0];
      }
      size := 0;
    }

    method Assign(view: seq<Byte>)
      requires Valid()
      modifies this
      ensures Valid() && storage != [] && Text() == view
    {
      storage := Resized(storage, |view| + 1);
      for i := 0 to |view|
        invariant |storage| == |view| + 1 && storage[..i] == view[..i] && !badAccess
      {
        storage := storage[i := view[i]];
      }
      size := |view|;
      storage := storage[size := 0];
    }

    method Append(view: seq<Byte>)
      requires Valid()
      modifies this
      ensures Valid() && Text() == old(Text()) + view
    {
      if view == [] {
        return;
      }
      ghost var was := Text();
      var oldSize := size;
      var newSize := size + |view|;
      storage := Resized(storage, newSize + 1);
      for i := 0 to |view|
        invariant |storage| == newSize + 1 && !badAccess
        invariant storage[..oldSize + i] == was + view[..i]
      {
        storage := storage[oldSize + i := view[i]];
      }
      size := newSize;
      storage := storage[size := 0];
    }

    method PushBack(unit: Byte)
      requires Valid()
      modifies this
      ensures Valid() && Text() == old(Text()) + [unit]
    {
      storage := Resized(storage, size + 2);
      storage := storage[size := unit];
      size := size + 1;
      storage := storage[size := 0];
    }

    method PopBack()
      requires Valid()
      modifies this
      ensures Valid()
      ensures Text() == if old(Text()) == [] then [] else old(Text())[..|old(Text())| - 1]
    {
      if size == 0 {
        return;
      }
      size := size - 1;
      storage := Resized(storage, size + 1);
      storage := storage[size := 0];
    }

    /** Moves the text from `position` on, terminator included, up by `gap`, from the end backwards. */
    method OpenGap(position: nat, gap: nat)
      requires position <= size && |storage| == size + gap + 1
      modifies this`storage
      ensures |storage| == size + gap + 1
      ensures forall k :: 0 <= k < position ==> storage[k] == old(storage[k])
      ensures forall k :: position + gap <= k <= size + gap ==> storage[k] == old(storage[k - gap])
    {
      var index := size + 1;
      while index > position
        invariant position <= index <= size + 1 && |storage| == size + gap + 1
        invariant forall k :: 0 <= k < index ==> storage[k] == old(storage[k])
        invariant forall k :: index + gap <= k <= size + gap ==> storage[k] == old(storage[k - gap])
      {
        storage := storage[index + gap - 1 := storage[index - 1]];
        index := index - 1;
      }
    }

    method FillGap(position: nat, view: seq<Byte>)
      requires position + |view| <= |storage|
      modifies this`storage
      ensures storage == old(storage)[..position] + view + old(storage)[position + |view|..]
    {
      for i := 0 to |view|
        invariant |storage| == |old(storage)|
        invariant storage[..position + i] == old(storage)[..position] + view[..i]
        invariant storage[position + |view|..] == old(storage)[position + |view|..]
      {
        storage := storage[position + i := view[i]];
      }
    }

    method Insert(position: nat, view: seq<Byte>) returns (ok: bool)
      requires Valid()
      modifies this
      ensures Valid() && ok == (position <= old(size))
      ensures Text() == if ok then Inserted(old(Text()), position, view) else old(Text())
    {
      if position > size {
        return false;
      }
      if view == [] {
        return true;
      }
      ghost var was := Text();
      storage := Resized(storage, size + |view| + 1);
      OpenGap(position, |view|);
      assert storage[..position] == was[..position];
      assert storage[position + |view|..size + |view|] == was[position..];
      FillGap(position, view);
      size := size + |view|;
      storage := storage[size := 0];
      return true;
    }

    /**
     Moves the text from `position + gap` on, terminator included, down by `gap`.  Without storage
     there is no terminator, and the loop still copies one unit.
     */
    method CloseGap(position: nat, gap: nat)
      requires position + gap <= size && (|storage| == size + 1 || (storage == [] && size == 0))
      modifies this`storage, this`badAccess
      ensures badAccess == (old(badAccess) || old(storage) == [])
      ensures |storage| == |old(storage)|
      ensures forall k :: 0 <= k < position && k < |storage| ==> storage[k] == old(storage[k])
      ensures forall k :: position <= k <= size - gap && k < |storage| ==> storage[k] == old(storage[k + gap])
    {
      var index := position;
      while index + gap <= size
        invariant position <= index && index + gap <= size + 1 && |storage| == |old(storage)|
        invariant badAccess == (old(badAccess) || (old(storage) == [] && index > position))
        invariant forall k :: 0 <= k < position && k < |storage| ==> storage[k] == old(storage[k])
        invariant forall k :: position <= k < index && k < |storage| ==> storage[k] == old(storage[k + gap])
        invariant forall k :: index <= k <= size && k < |storage| ==> storage[k] == old(storage[k])
      {
        if index + gap >= |storage| {
          badAccess := true;
        } else {
          storage := storage[index := storage[index + gap]];
        }
        index := index + 1;
      }
    }

    /**
     Erasing at position 0 of a string whose storage was never allocated copies one unit through the
     null storage pointer, even when there is nothing to erase; every other call keeps to the storage
     and erases the units asked for.
     */
    method Erase(position: nat, count: nat) returns (ok: bool)
      requires Valid()
      modifies this
      ensures badAccess <==> old(storage) == [] && position == 0
      ensures !badAccess ==> Valid() && ok == (position <= old(size))
      ensures !badAccess ==>
        Text() == if ok then Erased(old(Text()), position, Min(count, old(size) - position)) else old(Text())
    {
      if position > size {
        return false;
      }
      var available := size - position;
      var gap := if count > available then available else count;
      CloseGap(position, gap);
      size := size - gap;
      storage := Resized(storage, size + 1);
      storage := storage[size := 0];
      return true;
    }
  }

  /** The bad access is real: it is the first thing erasing from a new string does, whatever the count. */
  method EraseFromNew(count: nat) returns (line: BasicString)
    ensures fresh(line) && line.badAccess
  {
    line := new BasicString();
    var _ := line.Erase(0, count);
  }
}
