/** String fields that are not on an arena. A field points to the shared default string or to a string on the heap
    that it alone owns. */
module ArenaString {

  class StdString {
    var text: string

    constructor (text: string)
      ensures this.text == text
    {
      this.text := text;
    }
  }

  /** operator new and operator delete: `live` are the strings that can be freed. */
  class Heap {
    ghost var live: set<StdString>

    constructor ()
      ensures live == {}
    {
      live := {};
    }

    method New(text: string) returns (s: StdString)
      modifies this
      ensures fresh(s) && s.text == text && live == old(live) + {s}
    {
      s := new StdString(text);
      live := live + {s};
    }

    method Delete(s: StdString)
      requires s in live
      modifies this
      ensures live == old(live) - {s}
    {
      live := live - {s};
    }
  }

  class ArenaStringPtr {
    var ptr: StdString

    /** A new field, as UnsafeSetDefault leaves it. */
    constructor (defaultValue: StdString)
      ensures ptr == defaultValue
    {
      ptr := defaultValue;
    }

    /** The field is unset, or what it points to has not been freed. */
    ghost predicate Sound(heap: Heap, defaultValue: StdString)
      reads this, heap
    {
      defaultValue !in heap.live && (ptr == defaultValue || ptr in heap.live)
    }

    function Get(): string
      reads this, ptr
    {
      ptr.text
    }

    predicate IsDefault(defaultValue: StdString)
      reads this
    {
      ptr == defaultValue
    }

    method SetNoArena(heap: Heap, defaultValue: StdString, value: string)
      requires Sound(heap, defaultValue)
      modifies this`ptr, if ptr == defaultValue then {heap} else {ptr}
      ensures ptr != defaultValue && ptr.text == value
      ensures old(ptr) != defaultValue ==> ptr == old(ptr)
      ensures old(ptr) == defaultValue ==> fresh(ptr) && heap.live == old(heap.live) + {ptr}
    {
      if ptr == defaultValue {
        ptr := heap.New(value);
      } else {
        ptr.text := value;
      }
    }

    method MutableNoArena(heap: Heap, defaultValue: StdString) returns (r: StdString)
      requires Sound(heap, defaultValue)
      modifies this`ptr, if ptr == defaultValue then {heap} else {}
      ensures r == ptr != defaultValue && ptr.text == old(ptr.text)
      ensures old(ptr) != defaultValue ==> ptr == old(ptr)
      ensures old(ptr) == defaultValue ==> fresh(ptr) && heap.live == old(heap.live) + {ptr}
    {
      if ptr == defaultValue {
        ptr := heap.New(defaultValue.text);
      }
      r := ptr;
    }

    method ReleaseNoArena(defaultValue: StdString) returns (r: StdString?)
      modifies this`ptr
      ensures ptr == defaultValue && r == (if old(ptr) == defaultValue then null else old(ptr))
    {
      if ptr == defaultValue {
        return null;
      }
      r := ptr;
      ptr := defaultValue;
    }

    method SetAllocatedNoArena(heap: Heap, defaultValue: StdString, value: StdString?)
      requires Sound(heap, defaultValue)
      modifies this`ptr, if ptr == defaultValue then {} else {heap}
      ensures ptr == if value == null then defaultValue else value
      ensures heap.live == old(heap.live) - {old(ptr)}
    {
      if ptr != defaultValue {
        heap.Delete(ptr);
      }
      if value != null {
        ptr := value;
      } else {
        ptr := defaultValue;
      }
    }

    /** Leaves the field pointing to what it has freed: it must not be used any more. */
    method DestroyNoArena(heap: Heap, defaultValue: StdString)
      requires Sound(heap, defaultValue)
      modifies if ptr == defaultValue then {} else {heap}
      ensures heap.live == old(heap.live) - {ptr}
    {
      if ptr != defaultValue {
        heap.Delete(ptr);
      }
    }

    method ClearToEmptyNoArena(defaultValue: StdString)
      modifies if ptr == defaultValue then {} else {ptr}
      ensures ptr != defaultValue ==> ptr.text == ""
    {
      if ptr != defaultValue {
        ptr.text := "";
      }
    }

    method ClearToDefaultNoArena(defaultValue: StdString)
      modifies if ptr == defaultValue then {} else {ptr}
      ensures ptr.text == defaultValue.text
    {
      if ptr != defaultValue {
        ptr.text := defaultValue.text;
      }
    }

    /** `value` is the pointer of another field, or of this one. */
    method AssignWithDefault(heap: Heap, defaultValue: StdString, value: StdString)
      requires Sound(heap, defaultValue)
      modifies this`ptr, if ptr == value then {} else if ptr == defaultValue then {heap} else {ptr}
      ensures ptr.text == old(value.text)
      ensures old(ptr) != defaultValue || value == defaultValue ==> ptr == old(ptr)
      ensures old(ptr) == defaultValue && value != defaultValue ==> fresh(ptr) && heap.live == old(heap.live) + {ptr}
    {
      if ptr != value {
        SetNoArena(heap, defaultValue, value.text);
      }
    }

    /** Swap in a release build. */
    method SwapRelease(other: ArenaStringPtr)
      modifies this`ptr, other`ptr
      ensures ptr == old(other.ptr) && other.ptr == old(ptr)
    {
      ptr, other.ptr := other.ptr, ptr;
    }

    /** Swap in a debug build: the contents are exchanged, not the strings. */
    method SwapDebug(heap: Heap, defaultValue: StdString, other: ArenaStringPtr)
      requires Sound(heap, defaultValue) && other.Sound(heap, defaultValue)
      requires this == other || ptr != other.ptr || ptr == defaultValue
      modifies this`ptr, other`ptr, heap, if ptr == defaultValue then {} else {ptr}
      modifies if other.ptr == defaultValue then {} else {other.ptr}
      ensures ptr.text == old(other.ptr.text) && other.ptr.text == old(ptr.text)
      ensures old(ptr) != defaultValue ==> ptr == old(ptr)
      ensures old(other.ptr) != defaultValue ==> other.ptr == old(other.ptr)
      ensures old(ptr == defaultValue && other.ptr == defaultValue) ==>
        ptr == other.ptr == defaultValue && heap.live == old(heap.live)
      ensures old(ptr == defaultValue && other.ptr != defaultValue) ==>
        fresh(ptr) && heap.live == old(heap.live) + {ptr}
      ensures old(ptr != defaultValue && other.ptr == defaultValue) ==>
        fresh(other.ptr) && heap.live == old(heap.live) + {other.ptr}
      ensures old(ptr != defaultValue && other.ptr != defaultValue) ==> heap.live == old(heap.live)
    {
      if IsDefault(defaultValue) && other.IsDefault(defaultValue) {
        return;
      }
      var thisPtr := MutableNoArena(heap, defaultValue);
      var otherPtr := other.MutableNoArena(heap, defaultValue);
      thisPtr.text, otherPtr.text := otherPtr.text, thisPtr.text;
    }
  }
}
