/**
  An array field of a message generated by `event_rpcgen.py`: a block of memory that doubles as it fills, the number of
  elements in use, and the `_set` flag.
 */
module RpcArray {
  import opened Options

  class ArrayField<T> {
    var data: array<T>
    var length: nat
    var capacity: nat
    var isSet: bool

    ghost predicate Valid()
      reads this, data
    {
      && data.Length == capacity
      && length <= capacity <= 2 * length + 2
      && (isSet <==> length > 0)
    }

    ghost function Contents(): seq<T>
      reads this, data
      requires Valid()
    {
      data[..length]
    }

    constructor ()
      ensures Valid() && Contents() == [] && capacity == 0 && fresh(data)
    {
      data := new T[0];
      length, capacity, isSet := 0, 0, false;
    }

    /** `expand_to_hold_more`; `memory` is `realloc`'s block with whatever the rest of it holds, or nothing. */
    method ExpandToHoldMore(memory: Option<array<T>>) returns (ok: bool)
      requires data.Length == capacity
      requires memory.Some? ==> memory.value != data && memory.value.Length == Doubled(capacity)
      modifies this`data, this`capacity, if memory.Some? then {memory.value} else {}
      ensures ok == memory.Some?
      ensures ok ==> data == memory.value && capacity == data.Length
      ensures ok ==> capacity == if old(capacity) == 0 then 1 else 2 * old(capacity)
      ensures ok ==> data[..old(capacity)] == old(data[..])
      ensures !ok ==> data == old(data) && capacity == old(capacity)
    {
      if memory.None? { return false; }
      var block := memory.value;
      for i := 0 to capacity
        invariant data == old(data) && capacity == old(capacity) && block[..i] == data[..i]
        invariant data[..] == old(data[..])
      {
        block[i] := data[i];
      }
      data, capacity := block, block.Length;
      return true;
    }

    /** `add`; `element` is the new element, or nothing when it could not be made. */
    method Add(memory: Option<array<T>>, element: Option<T>) returns (ok: bool)
      requires Valid() && (memory.Some? ==> memory.value != data && memory.value.Length == Doubled(capacity))
      modifies this, data, if memory.Some? then {memory.value} else {}
      ensures Valid()
      ensures ok <==> element.Some? && (old(length) + 1 < old(capacity) || memory.Some?)
      ensures ok ==> Contents() == old(Contents()) + [element.value]
      ensures !ok ==> Contents() == old(Contents())
      ensures data == old(data) || (memory.Some? && data == memory.value)
    {
      ghost var before := Contents();
      length := length + 1;
      if length >= capacity {
        var grown := ExpandToHoldMore(memory);
        if !grown {
          length := length - 1;
          return false;
        }
      }
      assert data[..length - 1] == before;
      if element.None? {
        length := length - 1;
        return false;
      }
      data[length - 1] := element.value;
      isSet := true;
      return true;
    }

    /** The array's case of `unmarshal`; `element` is what the item decodes to, if it does. */
    method UnmarshalItem(memory: Option<array<T>>, element: Option<T>) returns (ok: bool)
      requires Valid() && (memory.Some? ==> memory.value != data && memory.value.Length == Doubled(capacity))
      modifies this, data, if memory.Some? then {memory.value} else {}
      ensures Valid()
      ensures ok <==> element.Some? && (old(length) < old(capacity) || memory.Some?)
      ensures ok ==> Contents() == old(Contents()) + [element.value]
      ensures !ok ==> Contents() == old(Contents())
      ensures data == old(data) || (memory.Some? && data == memory.value)
    {
      ghost var before := Contents();
      if length >= capacity {
        var grown := ExpandToHoldMore(memory);
        if !grown { return false; }
      }
      assert data[..length] == before;
      if element.None? { return false; }
      data[length] := element.value;
      length := length + 1;
      isSet := true;
      return true;
    }

    method Get(offset: int) returns (r: Option<T>)
      requires Valid()
      ensures r.Some? <==> 0 <= offset < |Contents()|
      ensures r.Some? ==> r.value == Contents()[offset]
    {
      if !isSet || offset < 0 || offset >= length { return None; }
      return Some(data[offset]);
    }

    /**
      `assign`; `copy` is the copy of the value, or nothing when it could not be made, and then the slot is left with
      what freeing the old element leaves there.
     */
    method Assign(offset: int, copy: Option<T>, cleared: T) returns (ok: bool)
      requires Valid()
      modifies data
      ensures Valid() && (ok <==> 0 <= offset < old(length) && copy.Some?)
      ensures ok ==> Contents() == old(Contents())[offset := copy.value]
      ensures !ok && 0 <= offset < old(length) ==> Contents() == old(Contents())[offset := cleared]
      ensures !(0 <= offset < old(length)) ==> Contents() == old(Contents())
    {
      if !isSet || offset < 0 || offset >= length { return false; }
      if copy.None? {
        data[offset] := cleared;
        return false;
      }
      data[offset] := copy.value;
      return true;
    }

    /** `clear` gives the memory of an array with elements back; what a failed `add` to an empty one gained stays. */
    method Clear()
      requires Valid()
      modifies this
      ensures Valid() && Contents() == [] && !isSet
      ensures capacity == if old(isSet) then 0 else old(capacity)
      ensures data == old(data) || fresh(data)
    {
      if isSet {
        data := new T[0];
        isSet, length, capacity := false, 0, 0;
      }
    }
  }

  function Doubled(n: nat): nat {
    if n == 0 then 1 else 2 * n
  }
}
