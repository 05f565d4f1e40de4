/**
 * The growable vector of strings (`Vector`, `Vector_init`, `Vector_push`,
 * `Vector_erase`). An item is the string a `char *` points to, as a value.
 * The outcome of `malloc`/`realloc` is a parameter: `true` when the allocator
 * returned memory.
 */
module GrowableVector {

  type Line = seq<char>

  class Vector {
    var items: array?<Line>
    var cap: nat
    var size: nat

    /** The vector is initialised and not erased: `items` holds `cap > 0`
        slots of which the first `size` are in use. */
    ghost predicate Valid()
      reads this
    {
      items != null && items.Length == cap && 0 < cap && size <= cap
    }

    /** The strings held, in index order. */
    ghost function Contents(): seq<Line>
      reads this, items
      requires Valid()
    {
      items[..size]
    }

    /** A declared, not yet initialised `Vector` variable. */
    constructor ()
      ensures items == null && cap == 0 && size == 0
    {
      items := null;
      cap := 0;
      size := 0;
    }

    /** `Vector_init`: fails when the capacity is 0, leaving the vector as it
        was, or when `malloc` fails, which has already stored NULL in `items`;
        otherwise the vector is empty with exactly `initCapacity` slots. */
    method Init(initCapacity: nat, mallocOk: bool) returns (err: bool)
      modifies this
      ensures err <==> initCapacity == 0 || !mallocOk
      ensures initCapacity == 0 ==> unchanged(this)
      ensures initCapacity > 0 && !mallocOk ==> items == null && cap == old(cap) && size == old(size)
      ensures !err ==> Valid() && fresh(items) && cap == initCapacity && size == 0
      ensures !err ==> Contents() == []
    {
      if initCapacity == 0 {
        return true;
      }
      if !mallocOk {
        items := null;
        return true;
      }
      items := new Line[initCapacity];
      cap := initCapacity;
      size := 0;
      err := false;
    }

    /** `Vector_push`: a full vector doubles `cap` first and then reallocates;
        the item is stored at the old `size`, and no earlier item changes.
        When `realloc` fails, `cap` has already been doubled while `items`
        still has the old length, so the vector is left inconsistent. */
    method Push(item: Line, reallocOk: bool) returns (err: bool)
      requires Valid()
      modifies this, items
      ensures err <==> old(size) == old(cap) && !reallocOk
      ensures cap == if old(size) == old(cap) then 2 * old(cap) else old(cap)
      ensures err ==> items == old(items) && size == old(size) && unchanged(old(items)) && !Valid()
      ensures !err ==> Valid() && size == old(size) + 1
      ensures !err ==> Contents() == old(Contents()) + [item]
      ensures !err ==> if old(size) < old(cap) then items == old(items) else fresh(items)
    {
      if size == cap {
        cap := cap * 2;
        if !reallocOk {
          return true;
        }
        var old_items: array<Line> := items;
        var grown := new Line[cap];
        var i := 0;
        while i < size
          invariant i <= size <= old_items.Length < grown.Length
          invariant grown[..i] == old_items[..i]
          modifies grown
        {
          grown[i] := old_items[i];
          i := i + 1;
        }
        items := grown;
      }
      items[size] := item;
      size := size + 1;
      err := false;
    }

    /** `Vector_erase`: releases the slot array (not the strings) and sets
        `items` to NULL; `cap` and `size` keep their values. */
    method Erase()
      modifies this
      ensures items == null && cap == old(cap) && size == old(size)
    {
      items := null;
    }
  }
}
