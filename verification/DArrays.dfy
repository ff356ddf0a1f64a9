/** Growable arrays of pointers. */
module DArrays {
  import opened Common

  const DEFAULT_EXPAND_RATE := 300

  // What the slots below end hold; those from end to max hold anything.
  class DArray<T> {
    var end: int
    var max: int
    var expandRate: int
    // NULL is None
    var contents: array<Option<T>>

    ghost predicate Valid()
      reads this
    {
      0 <= end <= max == contents.Length && 0 < max && 0 < expandRate
    }

    // A push needs a free slot, and leaves one.
    ghost predicate Roomy()
      reads this
    {
      Valid() && end < max
    }

    ghost function Items(): seq<Option<T>>
      requires Valid()
      reads this, contents
    {
      contents[..end]
    }

    // DArray_create
    constructor (initialMax: int)
      requires initialMax > 0
      ensures Roomy() && Items() == [] && max == initialMax && expandRate == DEFAULT_EXPAND_RATE
      ensures fresh(contents) && forall k :: 0 <= k < max ==> contents[k] == None
    {
      max, end, expandRate := initialMax, 0, DEFAULT_EXPAND_RATE;
      contents := new Option<T>[initialMax](_ => None);
    }

    // realloc: what fits is kept, further slots hold anything
    method Resize(newSize: int) returns (rc: int)
      requires Valid()
      modifies this`max, this`contents
      ensures rc == if newSize > 0 then 0 else -1
      ensures max == newSize
      ensures rc == 0 ==> contents.Length == max && fresh(contents)
      ensures rc == 0 ==> forall k :: 0 <= k < max && k < old(max) ==> contents[k] == old(contents[k])
      ensures rc != 0 ==> contents == old(contents)
    {
      var was := max;
      max := newSize;
      if max <= 0 {
        return -1;
      }
      var garbage: Option<T> :| true;
      var grown := new Option<T>[max](_ => garbage);
      forall k | 0 <= k < max && k < was {
        grown[k] := contents[k];
      }
      contents := grown;
      return 0;
    }

    method Expand() returns (rc: int)
      requires Valid()
      modifies this`max, this`contents
      ensures rc == 0 && Roomy() && Items() == old(Items())
      ensures max == old(max) + expandRate && fresh(contents)
    {
      rc := Resize(max + expandRate);
    }

    method Contract() returns (rc: int)
      requires Valid()
      modifies this`max, this`contents
      ensures rc == 0 && Roomy() && Items() == old(Items())
      ensures max == (if end < expandRate then expandRate else end) + 1 && fresh(contents)
    {
      var newSize := if end < expandRate then expandRate else end;
      rc := Resize(newSize + 1);
    }

    method Push(el: Option<T>) returns (rc: int)
      requires Roomy()
      modifies this`end, this`max, this`contents, contents
      ensures rc == 0 && Roomy() && Items() == old(Items()) + [el]
      ensures max == if old(end) + 1 < old(max) then old(max) else old(max) + expandRate
      ensures contents == old(contents) || fresh(contents)
    {
      contents[end] := el;
      end := end + 1;
      assert contents[..end] == old(contents[..end]) + [el];
      if end >= max {
        rc := Expand();
      } else {
        rc := 0;
      }
    }

    /** Takes off the last item. The space shrinks to what is needed on some pops and not on others, but never
        below that. */
    method Pop() returns (el: Option<T>)
      requires Valid()
      modifies this`end, this`max, this`contents, contents
      ensures Valid() && (old(Roomy()) || old(end) > 0 ==> Roomy())
      ensures contents == old(contents) || fresh(contents)
      ensures old(Items()) == [] ==> el == None && Items() == []
      ensures old(Items()) != [] ==> Items() + [el] == old(Items())
      ensures max == if old(end) - 1 > expandRate && (old(end) - 1) % expandRate != 0 then old(end) else old(max)
    {
      if end - 1 < 0 {
        return None;
      }
      el := Remove(end - 1);
      end := end - 1;
      assert contents[..end] == old(contents[..end - 1]);
      if end > expandRate && end % expandRate != 0 {
        var _ := Contract();
      }
    }

    /** Writes one slot. A slot beyond the end moves the end to it, which takes in the slots between but not the
        one written; one beyond max is refused. */
    method Set(i: nat, el: Option<T>)
      requires Valid()
      modifies this`end, contents
      ensures Valid() && end == if old(end) < i < max then i else old(end)
      ensures i < max ==> contents[i] == el
      ensures forall k :: 0 <= k < max && k != i ==> contents[k] == old(contents[k])
      ensures i < old(end) ==> Items() == old(Items())[i := el]
    {
      if i < max {
        if i > end {
          end := i;
        }
        contents[i] := el;
      }
    }

    function Get(i: nat): (el: Option<T>)
      requires Valid()
      reads this, contents
      ensures i < end ==> el == Items()[i]
    {
      if i < max then contents[i] else None
    }

    method Remove(i: nat) returns (el: Option<T>)
      requires Valid() && i < max
      modifies contents
      ensures el == old(contents[i]) && contents[i] == None
      ensures forall k :: 0 <= k < max && k != i ==> contents[k] == old(contents[k])
    {
      el := contents[i];
      contents[i] := None;
    }
  }
}
