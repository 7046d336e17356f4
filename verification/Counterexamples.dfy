/** Inputs on which the paths of `datapath/src/lib.rs` differ, and one that overflows the full-spray
    reservation: the conditions of `PacketLaws` are not met by every batch. */
module Counterexamples {
  import opened Bits
  import opened Wire
  import opened Session
  import opened Selection
  import opened RouteTable
  import opened Packets
  import opened PacketLaws
  import opened Arena
  import opened Forwarding

  /** A table with a single route. */
  function OneRoute(e: RouteEntry): Table { Write(EmptyTable(), Put(e)) }

  lemma RouteIsFound(e: RouteEntry)
    ensures ShardGet(OneRoute(e).shards, e.destId) == Some(e)
    ensures NextHop(OneRoute(e).shards, e.destId) == Some(e.nextHopId)
  {
    assert HomeOnly(EmptyTable().shards);
    ShardWriteMeaning(EmptyTable().shards, Put(e));
  }

  /** A cipher that meets the contract and never fails: the plaintext, and a tag of zeros. */
  function ZeroTag(): (c: Aead)
    ensures forall nonce, plain :: c.seal(nonce, plain).Some?
  {
    Cipher(
      (n, p) => Some(Sealed(p, seq(TAG_SIZE, _ => 0))),
      (n, c) => if |c| < TAG_SIZE then None else Some(c[..|c| - TAG_SIZE]))
  }

  function ZeroTagSession(prefix: seq<byte>, mask: u64): Option<Session> { Some(Session(ZeroTag(), prefix, mask)) }

  lemma ZeroTagNeverFails(prefix: seq<byte>, mask: u64)
    requires |prefix| == 4
    ensures ValidSession(ZeroTagSession(prefix, mask)) && NeverFails(ZeroTagSession(prefix, mask))
  {
  }

  /** A frame: header, then what follows it. */
  function Frame(h: Header, rest: seq<byte>): (p: Packet)
    ensures |p| == HEADER_SIZE + |rest|
  {
    Marshal(h) + rest
  }

  lemma FrameFields(h: Header, rest: seq<byte>)
    ensures HeaderOf(Frame(h, rest)) == h
  {
    ParseMarshal(h, rest);
  }

  /** The frame is routed to the entry's destination, and there is a session to encrypt it under. */
  lemma FrameIsEncryptable(e: RouteEntry, h: Header, rest: seq<byte>, prefix: seq<byte>, mask: u64)
    requires |prefix| == 4 && h.dstId == e.destId && 0 < h.length <= |rest|
    ensures var p := Frame(h, rest);
            && Encryptable(OneRoute(e), ZeroTagSession(prefix, mask), p)
            && LengthOf(p) == h.length && DstIdOf(p) == e.destId
            && Seal(ZeroTagSession(prefix, mask).value, p).Ok?
  {
    FrameFields(h, rest);
    RouteIsFound(e);
    ZeroTagNeverFails(prefix, mask);
    assert HeaderOf(Frame(h, rest)).length == LengthOf(Frame(h, rest));
    hide Marshal, ZeroTag, HeaderOf;
    SealSucceeds(ZeroTagSession(prefix, mask), Frame(h, rest));
  }

  /** One byte after header, payload and tag: the serial path drops it, the parallel path sends it.
      On a batch large enough for the parallel path, one thread and two send different bytes. */
  lemma LongFrameDiffers(e: RouteEntry, h: Header, rest: seq<byte>, prefix: seq<byte>, mask: u64)
    requires |prefix| == 4 && h.dstId == e.destId && h.length > 0 && |rest| == h.length + TAG_SIZE + 1
    ensures var t, s, p := OneRoute(e), ZeroTagSession(prefix, mask), Frame(h, rest);
            var frames := seq(1024, _ => p);
            && |SerialOutput(t, s, p).bytes| == HEADER_SIZE + h.length + TAG_SIZE
            && |OwnedOutput(t, s, p).bytes| == HEADER_SIZE + h.length + TAG_SIZE + 1
            && EmitAll(Nothing(|frames|), BatchOutputs(t, s, Plain, RunsSerially(|frames|, 1), frames))
               != EmitAll(Nothing(|frames|), BatchOutputs(t, s, Plain, RunsSerially(|frames|, 2), frames))
  {
    var t, s, p := OneRoute(e), ZeroTagSession(prefix, mask), Frame(h, rest);
    var frames := seq(1024, _ => p);
    FrameIsEncryptable(e, h, rest, prefix, mask);
    ZeroTagNeverFails(prefix, mask);
    LongSizes(t, s, p);
    hide OneRoute, ZeroTagSession, Frame, HasRoute, NeverFails, EmitAll, SerialOutputs, OwnedOutputs;
    hide SerialOutput, OwnedOutput, Seal;
    SerialEqualsParallelByLength(t, s, frames);
    assert Encryptable(t, s, frames[0]) && |frames[0]| > Target(frames[0]);
  }

  lemma LongSizes(t: Table, s: Option<Session>, p: Packet)
    requires ValidSession(s) && Encryptable(t, s, p) && Seal(s.value, p).Ok? && |p| == Target(p) + 1
    ensures |SerialOutput(t, s, p).bytes| == Target(p) && |OwnedOutput(t, s, p).bytes| == Target(p) + 1
  {
    hide HasRoute;
  }

  /** One byte after the payload: the full-spray serial path sends it behind the tag, the parallel
      path lets the tag cover it. */
  lemma TailedCopyDiffers(e: RouteEntry, h: Header, rest: seq<byte>, prefix: seq<byte>, mask: u64)
    requires |prefix| == 4 && h.dstId == e.destId == e.nextHopId && e.alternates == []
    requires h.length > 0 && |rest| == h.length + 1
    ensures var t, s, p := OneRoute(e), ZeroTagSession(prefix, mask), Frame(h, rest);
            var frames := seq(1024, _ => p);
            && AllCopies(t, frames) == frames
            && |FullOutput(t, s, p).bytes| == HEADER_SIZE + h.length + TAG_SIZE + 1
            && |OwnedOutput(t, s, p).bytes| == HEADER_SIZE + h.length + TAG_SIZE
            && EmitAll(Nothing(|frames|), BatchOutputs(t, s, FullSpray, RunsSerially(|frames|, 1), frames))
               != EmitAll(Nothing(|frames|), BatchOutputs(t, s, FullSpray, RunsSerially(|frames|, 2), frames))
  {
    var t, s, p := OneRoute(e), ZeroTagSession(prefix, mask), Frame(h, rest);
    var frames := seq(1024, _ => p);
    hide OneRoute, ZeroTagSession, Frame, HasRoute, NeverFails, EmitAll, FullOutputs, OwnedOutputs;
    hide AllCopies, FullOutput, OwnedOutput, Seal, Copies, Marshal;
    FrameIsEncryptable(e, h, rest, prefix, mask);
    ZeroTagNeverFails(prefix, mask);
    RouteIsFound(e);
    OnlyCopy(t, e, p);
    OwnCopies(t, frames);
    TailSizes(t, s, p);
    FullSerialEqualsParallelByLength(t, s, frames);
    assert Encryptable(t, s, frames[0]) && |frames[0]| != HEADER_SIZE + LengthOf(frames[0]);
  }

  lemma TailSizes(t: Table, s: Option<Session>, p: Packet)
    requires ValidSession(s) && Encryptable(t, s, p) && Seal(s.value, p).Ok? && |p| == HEADER_SIZE + LengthOf(p) + 1
    ensures |FullOutput(t, s, p).bytes| == Target(p) + 1 && |OwnedOutput(t, s, p).bytes| == Target(p)
  {
    hide HasRoute;
  }

  /** A frame for a neighbour with one channel is its own only copy. */
  lemma OnlyCopy(t: Table, e: RouteEntry, p: Packet)
    requires |p| >= HEADER_SIZE && DstIdOf(p) == e.destId == e.nextHopId && e.alternates == []
    requires ShardGet(t.shards, DstIdOf(p)) == Some(e)
    ensures Copies(t, p) == [p]
  {
    OneChannel(t, e, p);
    SelfRedirect(p);
    hide SprayChannels, Redirect, DstIdOf;
    assert RedirectAll(p, [e.nextHopId]) == [p];
  }

  lemma OneChannel(t: Table, e: RouteEntry, p: Packet)
    requires |p| >= HEADER_SIZE && e.alternates == [] && ShardGet(t.shards, DstIdOf(p)) == Some(e)
    ensures SprayChannels(t.shards, DstIdOf(p), FlowLabelOf(p), MAX_CHANNELS) == [e.nextHopId]
  {
    hide ShardGet, DstIdOf, FlowLabelOf;
  }

  lemma SelfRedirect(p: Packet)
    requires |p| >= HEADER_SIZE
    ensures Redirect(p, DstIdOf(p)) == p
  {
  }

  lemma {:induction false} OwnCopies(t: Table, frames: seq<Packet>)
    requires forall i :: 0 <= i < |frames| ==> Copies(t, frames[i]) == [frames[i]]
    ensures AllCopies(t, frames) == frames
    decreases |frames|
  {
    hide Copies;
    if frames != [] {
      OwnCopies(t, frames[..|frames| - 1]);
    }
  }

  /** Sixteen channels: a route with fifteen alternates has sixteen copies of each of its frames. */
  lemma SixteenCopies(e: RouteEntry, h: Header, rest: seq<byte>)
    requires h.dstId == e.destId && |e.alternates| == 15
    ensures |Copies(OneRoute(e), Frame(h, rest))| == 16
  {
    RouteIsFound(e);
    FrameFields(h, rest);
    hide OneRoute, Frame;
    CopiesCount(OneRoute(e), Frame(h, rest));
  }

  /** 64 full-size frames for such a route: the serial full-spray path appends more, without a
      check, than a new forwarder's arena has been given room for. */
  lemma FullSprayOverflows(e: RouteEntry, h: Header, rest: seq<byte>, s: Option<Session>)
    requires ValidSession(s) && h.dstId == e.destId && |e.alternates| == 15 && HEADER_SIZE + |rest| == 1500
    ensures var t, frames := OneRoute(e), seq(64, _ => Frame(h, rest));
            && Reserved(INITIAL_CAPACITY, 3 * Need(frames)) == 524288
            && TotalBytes(FullOutputs(t, s, AllCopies(t, frames))) >= 1536000
  {
    SixteenCopies(e, h, rest);
    hide OneRoute, Frame, FullOutputs, AllCopies, Copies, TotalBytes, Need, NextPowerOfTwo, Reserved;
    SixteenChannelsOverflow(OneRoute(e), s, seq(64, _ => Frame(h, rest)));
  }
}
