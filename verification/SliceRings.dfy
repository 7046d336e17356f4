/** The receive ring of `datapath/src/lib.rs`: equal slots in one flat buffer. */
module SliceRings {
  import opened Bits
  import opened Packets

  /** Frames as they fit into slots. */
  function Truncated(frames: seq<Packet>, slotSize: nat): (r: seq<Packet>)
    ensures |r| == |frames|
    ensures forall i :: 0 <= i < |frames| ==> r[i] == frames[i][..Min(|frames[i]|, slotSize)]
  {
    seq(|frames|, i requires 0 <= i < |frames| => frames[i][..Min(|frames[i]|, slotSize)])
  }

  function SlotStart(i: nat, slotSize: nat): nat { i * slotSize }

  /** Slots never overlap. */
  lemma SlotsApart(i: nat, j: nat, slotSize: nat)
    requires i < j
    ensures SlotStart(i, slotSize) + slotSize <= SlotStart(j, slotSize)
  {
    if slotSize > 0 {
      MulAtLeast(j - i, slotSize, j, i);
    }
  }

  /** Slot `i` of a ring with these bytes and lengths. */
  function SlotOf(bytes: seq<byte>, lens: seq<nat>, slotSize: nat, i: nat): (r: seq<byte>)
    requires Shaped(bytes, lens, slotSize) && i < |lens|
    ensures |r| == lens[i]
  {
    SlotInside(bytes, lens, slotSize, i);
    bytes[SlotStart(i, slotSize)..SlotStart(i, slotSize) + lens[i]]
  }

  ghost predicate Shaped(bytes: seq<byte>, lens: seq<nat>, slotSize: nat) {
    |bytes| == SlotStart(|lens|, slotSize) && forall i :: 0 <= i < |lens| ==> lens[i] <= slotSize
  }

  lemma SlotInside(bytes: seq<byte>, lens: seq<nat>, slotSize: nat, i: nat)
    requires Shaped(bytes, lens, slotSize) && i < |lens|
    ensures SlotStart(i, slotSize) + slotSize <= |bytes|
  {
    SlotsApart(i, |lens|, slotSize);
  }

  lemma PatchOtherSlice(s: seq<byte>, at: nat, b: seq<byte>, from: nat, to: nat)
    requires at + |b| <= |s| && from <= to <= |s|
    requires to <= at || at + |b| <= from
    ensures Patch(s, at, b)[from..to] == s[from..to]
  {
  }

  /** Filling a slot sets that slot and keeps every other one. */
  lemma FillMeaning(bytes: seq<byte>, lens: seq<nat>, slotSize: nat, i: nat, data: seq<byte>)
    requires Shaped(bytes, lens, slotSize) && i < |lens| && |data| <= slotSize
    requires SlotStart(i, slotSize) + |data| <= |bytes|
    ensures var b, l := Patch(bytes, SlotStart(i, slotSize), data), lens[i := |data|];
            && Shaped(b, l, slotSize)
            && SlotOf(b, l, slotSize, i) == data
            && forall j :: 0 <= j < |lens| && j != i ==> SlotOf(b, l, slotSize, j) == SlotOf(bytes, lens, slotSize, j)
  {
    hide SlotStart;
    var start := SlotStart(i, slotSize);
    var b, l := Patch(bytes, start, data), lens[i := |data|];
    forall j | 0 <= j < |lens| && j != i
      ensures SlotOf(b, l, slotSize, j) == SlotOf(bytes, lens, slotSize, j)
    {
      SlotInside(bytes, lens, slotSize, j);
      SlotsApart(Min(i, j), Max(i, j), slotSize);
      PatchOtherSlice(bytes, start, data, SlotStart(j, slotSize), SlotStart(j, slotSize) + lens[j]);
    }
  }

  class SliceRing {
    const backing: array<byte>
    const slotSize: nat
    const lens: array<nat>
    var active: seq<nat>

    ghost predicate Valid()
      reads this, backing, lens
    {
      Shaped(backing[..], lens[..], slotSize) && backing as object != lens
    }

    function Slot(i: nat): (r: seq<byte>)
      requires Valid() && i < lens.Length
      reads this, backing, lens
      ensures |r| == lens[i]
    {
      SlotOf(backing[..], lens[..], slotSize, i)
    }

    constructor (slotCount: nat, slotSize: nat)
      ensures Valid() && lens.Length == slotCount && this.slotSize == slotSize && active == []
    {
      backing := new byte[SlotStart(slotCount, slotSize)](_ => 0);
      this.slotSize := slotSize;
      lens := new nat[slotCount](_ => 0);
      active := [];
    }

    method CopyAt(at: nat, data: seq<byte>)
      requires at + |data| <= backing.Length
      modifies backing
      ensures backing[..] == Patch(old(backing[..]), at, data)
    {
      forall k | 0 <= k < |data| {
        backing[at + k] := data[k];
      }
    }

    /** `slot_mut`, the copy into it and `set_len`. */
    method Fill(i: nat, frame: Packet)
      requires Valid() && i < lens.Length
      modifies backing, lens
      ensures Valid()
      ensures Slot(i) == frame[..Min(|frame|, slotSize)]
      ensures forall j :: 0 <= j < lens.Length && j != i ==> Slot(j) == old(Slot(j))
    {
      hide SlotStart, SlotOf, Patch, Shaped;
      SlotInside(backing[..], lens[..], slotSize, i);
      var data := frame[..Min(|frame|, slotSize)];
      FillMeaning(backing[..], lens[..], slotSize, i, data);
      CopyAt(SlotStart(i, slotSize), data);
      lens[i] := |data|;
      assert lens[..] == old(lens[..])[i := |data|];
    }

    /** The default `poll_slices` on the frames polled; `None` is the panic of an exhausted ring. */
    method PollSlices(frames: seq<Packet>) returns (r: Option<nat>)
      requires Valid()
      modifies this`active, backing, lens
      ensures Valid()
      ensures r.None? <==> |frames| > lens.Length
      ensures r.Some? ==>
                && r.value == |frames| == |active|
                && (forall i :: 0 <= i < |frames| ==> active[i] == i && Slot(i) == Truncated(frames, slotSize)[i])
    {
      active := [];
      for i := 0 to |frames|
        invariant Valid() && |active| == i <= lens.Length
        invariant forall j :: 0 <= j < i ==> active[j] == j && Slot(j) == Truncated(frames, slotSize)[j]
      {
        var idx := |active|;
        if idx >= lens.Length {
          return None;
        }
        Fill(idx, frames[i]);
        active := active + [idx];
      }
      return Some(|active|);
    }
  }
}
