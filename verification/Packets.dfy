/** What the forwarder of `datapath/src/lib.rs` is meant to do with each packet, and what a batch
    of outputs looks like in the arena: the per-packet specification of all its paths. */
module Packets {
  import opened Bits
  import opened Wire
  import opened Session
  import opened RouteTable

  const MAX_CHANNELS: nat := 16

  type Packet = seq<byte>

  datatype Output = Output(bytes: seq<byte>, encrypted: bool, missed: bool)

  datatype Stats = Stats(received: nat, forwarded: nat, encrypted: nat, routeMisses: nat)

  /** Arena contents, offsets and statistics: what is handed to the socket, and what is returned. */
  datatype Sent = Sent(bytes: seq<byte>, offsets: seq<(nat, nat)>, stats: Stats)

  function Count(st: Stats, o: Output): Stats {
    st.(forwarded := st.forwarded + (if o.encrypted then 0 else 1),
        encrypted := st.encrypted + (if o.encrypted then 1 else 0),
        routeMisses := st.routeMisses + (if o.missed then 1 else 0))
  }

  function Emit(s: Sent, o: Output): Sent {
    Sent(s.bytes + o.bytes, s.offsets + [(|s.bytes|, |o.bytes|)], Count(s.stats, o))
  }

  function EmitAll(s: Sent, outs: seq<Output>): Sent
    decreases |outs|
  {
    if outs == [] then s else Emit(EmitAll(s, outs[..|outs| - 1]), outs[|outs| - 1])
  }

  function Nothing(received: nat): Sent { Sent([], [], Stats(received, 0, 0, 0)) }

  // ---------- One packet ----------

  /** Is there a whole, non-empty declared payload? */
  predicate Fits(p: Packet)
    requires |p| >= HEADER_SIZE
  {
    |p| >= HEADER_SIZE + LengthOf(p) && LengthOf(p) > 0
  }

  function Payload(p: Packet): (b: seq<byte>)
    requires |p| >= HEADER_SIZE && Fits(p)
    ensures |b| == LengthOf(p)
  {
    p[HEADER_SIZE..HEADER_SIZE + LengthOf(p)]
  }

  function Seal(s: Session, p: Packet): (r: Result<Sealed>)
    requires s.Valid() && |p| >= HEADER_SIZE && Fits(p)
    ensures r.Ok? ==> |r.value.ciphertext| == LengthOf(p) && |r.value.tag| == TAG_SIZE
  {
    EncryptDetached(s, Payload(p), SeqNumOf(p))
  }

  function Redirect(p: Packet, nh: Id): (r: Packet)
    requires |p| >= HEADER_SIZE
    ensures |r| == |p|
  {
    Patch(p, DST_OFFSET, nh)
  }

  function HasRoute(t: Table, p: Packet): bool
    requires |p| >= HEADER_SIZE
  {
    LookupOrPredict(t, SrcIdOf(p), DstIdOf(p), FlowLabelOf(p)).Some?
  }

  predicate ValidSession(s: Option<Session>) { s.Some? ==> s.value.Valid() }

  /** What a path does with the bytes after the declared payload of a packet it encrypts: leave
      them out, keep them after the tag, or let the tag cover their beginning. */
  datatype Tail = DropTail | KeepTail | CoverTail

  function TailBytes(p: Packet, tail: Tail): seq<byte>
    requires |p| >= HEADER_SIZE && Fits(p)
  {
    var past := HEADER_SIZE + LengthOf(p);
    match tail
    case DropTail => []
    case KeepTail => p[past..]
    case CoverTail => p[Min(past + TAG_SIZE, |p|)..]
  }

  function EncryptedBytes(p: Packet, x: Sealed, tail: Tail): seq<byte>
    requires |p| >= HEADER_SIZE && Fits(p)
  {
    p[..HEADER_SIZE] + x.ciphertext + x.tag + TailBytes(p, tail)
  }

  /** The owned path makes room for the tag before it encrypts, and keeps the room on failure. */
  function FailedBytes(p: Packet, tail: Tail): seq<byte>
    requires |p| >= HEADER_SIZE && Fits(p)
  {
    var target := HEADER_SIZE + LengthOf(p) + TAG_SIZE;
    if tail.CoverTail? && |p| < target then p + seq(target - |p|, _ => 0) else p
  }

  /** A packet with a whole header: encrypt it if it is routed, there is a session and its
      payload is there; otherwise pass it on. */
  function Routed(t: Table, s: Option<Session>, p: Packet, tail: Tail): Output
    requires |p| >= HEADER_SIZE && ValidSession(s)
  {
    if !HasRoute(t, p) then Output(p, false, true)
    else if s.None? then Output(p, false, false)
    else if !Fits(p) then Output(p, false, LengthOf(p) > 0)
    else
      match Seal(s.value, p)
      case Ok(x) => Output(EncryptedBytes(p, x, tail), true, false)
      case Err(_) => Output(FailedBytes(p, tail), false, true)
  }

  /** `handle_packet` and the pass-on after it: the serial and the slice path. */
  function SerialOutput(t: Table, s: Option<Session>, p: Packet): Output
    requires ValidSession(s)
  {
    if |p| < HEADER_SIZE then Output(p, false, false) else Routed(t, s, p, DropTail)
  }

  /** `process_packet_owned` and `process_packet_owned_consuming`: the parallel paths. */
  function OwnedOutput(t: Table, s: Option<Session>, p: Packet): Output
    requires ValidSession(s)
  {
    if |p| < HEADER_SIZE then Output(p, false, false) else Routed(t, s, p, CoverTail)
  }

  /** The primary-spray path: the flow's own channel becomes the destination. */
  function PrimaryOutput(t: Table, s: Option<Session>, p: Packet): Output
    requires ValidSession(s)
  {
    if |p| < HEADER_SIZE then Output(p, false, true)
    else
      match SprayPrimary(t.shards, DstIdOf(p), FlowLabelOf(p))
      case None => Output(p, false, true)
      case Some(nh) => Sprayed(s, p, nh)
  }

  function Sprayed(s: Option<Session>, p: Packet, nh: Id): Output
    requires |p| >= HEADER_SIZE && ValidSession(s)
  {
    var q := Redirect(p, nh);
    if !Fits(p) then
      if LengthOf(p) > 0 then Output(q, false, true) else Output(q[..HEADER_SIZE], false, false)
    else if s.None? then Output(q[..HEADER_SIZE + LengthOf(p)], false, false)
    else
      match Seal(s.value, p)
      case Ok(x) => Output(q[..HEADER_SIZE] + x.ciphertext + x.tag + TailBytes(p, KeepTail), true, false)
      case Err(_) => Output(q, false, true)
  }

  function RedirectAll(p: Packet, channels: seq<Id>): (c: seq<Packet>)
    requires |p| >= HEADER_SIZE
    ensures |c| == |channels|
    ensures forall i :: 0 <= i < |channels| ==> c[i] == Redirect(p, channels[i])
  {
    seq(|channels|, i requires 0 <= i < |channels| => Redirect(p, channels[i]))
  }

  /** Full spray: one copy of the packet for every channel, or the packet itself. */
  function Copies(t: Table, p: Packet): (c: seq<Packet>)
    ensures 1 <= |c| <= MAX_CHANNELS
  {
    if |p| < HEADER_SIZE then [p]
    else
      var channels := SprayChannels(t.shards, DstIdOf(p), FlowLabelOf(p), MAX_CHANNELS);
      if channels == [] then [p] else RedirectAll(p, channels)
  }

  function FullOutput(t: Table, s: Option<Session>, p: Packet): Output
    requires ValidSession(s)
  {
    if |p| < HEADER_SIZE then Output(p, false, true) else Routed(t, s, p, KeepTail)
  }
}
