/** `AlignedBuffer` of `datapath/src/lib.rs`: a growable byte buffer whose appends do not check
    the capacity. What the source leaves to its callers as safety conditions are preconditions. */
module Arena {
  import opened Bits

  const INITIAL_CAPACITY: nat := 262144

  /** The capacity after making room for `required` bytes in all. */
  function Reserved(cap: nat, required: nat): (r: nat)
    ensures r >= required && r >= cap
  {
    if required <= cap then cap else Max(NextPowerOfTwo(required), 2 * cap)
  }

  class AlignedBuffer {
    var data: array<byte>
    var len: nat

    ghost predicate Valid()
      reads this
    {
      len <= data.Length
    }

    ghost function Contents(): (s: seq<byte>)
      requires Valid()
      reads this, data
      ensures |s| == len
    {
      data[..len]
    }

    constructor WithCapacity(capacity: nat)
      ensures Valid() && fresh(data) && data.Length == Max(capacity, 1) && Contents() == []
    {
      data := new byte[Max(capacity, 1)](_ => 0);
      len := 0;
    }

    method Clear()
      requires Valid()
      modifies this`len
      ensures Valid() && Contents() == []
    {
      len := 0;
    }

    method Truncate(n: nat)
      requires Valid()
      modifies this`len
      ensures Valid() && Contents() == old(Contents())[..Min(n, old(len))]
    {
      len := Min(len, n);
    }

    /** After it, `additional` more bytes can be appended; the contents move with the buffer. */
    method Reserve(additional: nat)
      requires Valid()
      modifies this`data
      ensures Valid() && len == old(len) && Contents() == old(Contents())
      ensures data.Length == Reserved(old(data.Length), len + additional)
      ensures data == old(data) || fresh(data)
    {
      var required := len + additional;
      if required <= data.Length {
        return;
      }
      var newCap := Max(NextPowerOfTwo(required), 2 * data.Length);
      var moved := new byte[newCap](_ => 0);
      forall i | 0 <= i < data.Length {
        moved[i] := data[i];
      }
      data := moved;
    }

    /** `extend_from_slice_unchecked` and `extend_from_tag_unchecked`. */
    method ExtendUnchecked(src: seq<byte>)
      requires Valid() && len + |src| <= data.Length
      modifies this`len, data
      ensures Valid() && len == old(len) + |src| && Contents() == old(Contents()) + src
    {
      forall i | 0 <= i < |src| {
        data[len + i] := src[i];
      }
      len := len + |src|;
    }

    /** The unchecked store of a 32-byte identifier into initialised bytes. */
    method Overwrite(at: nat, field: seq<byte>)
      requires Valid() && at + |field| <= len
      modifies data
      ensures Valid() && Contents() == Patch(old(Contents()), at, field)
    {
      forall i | 0 <= i < |field| {
        data[at + i] := field[i];
      }
    }
  }
}
