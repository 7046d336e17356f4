/** Whole batches of `datapath/src/lib.rs`, on every path: how many packets are sent, how they
    tile the arena, and what a receiver decrypts from the bytes handed to the socket. */
module BatchLaws {
  import opened Bits
  import opened Wire
  import opened Session
  import opened Selection
  import opened RouteTable
  import opened Packets
  import opened PacketLaws
  import opened Forwarding

  /** The bytes of the `i`-th packet handed to the socket. */
  function SentPacket(s: Sent, i: nat): seq<byte>
    requires i < |s.offsets| && s.offsets[i].0 + s.offsets[i].1 <= |s.bytes|
  {
    s.bytes[s.offsets[i].0..s.offsets[i].0 + s.offsets[i].1]
  }

  lemma OutputIsExclusive(t: Table, s: Option<Session>, p: Packet)
    requires ValidSession(s)
    ensures !(SerialOutput(t, s, p).encrypted && SerialOutput(t, s, p).missed)
    ensures !(OwnedOutput(t, s, p).encrypted && OwnedOutput(t, s, p).missed)
    ensures !(PrimaryOutput(t, s, p).encrypted && PrimaryOutput(t, s, p).missed)
    ensures !(FullOutput(t, s, p).encrypted && FullOutput(t, s, p).missed)
  {
    hide HasRoute, Seal, EncryptedBytes, FailedBytes, TailBytes, Redirect, SprayPrimary;
  }

  /** The packets a batch path works on: the frames, or in full spray their copies. */
  function Inputs(t: Table, mode: Mode, frames: seq<Packet>): seq<Packet> {
    if mode == FullSpray then AllCopies(t, frames) else frames
  }

  /** What a path puts out for one of its inputs. */
  function OutputFor(t: Table, s: Option<Session>, mode: Mode, serial: bool, p: Packet): Output
    requires ValidSession(s)
  {
    match mode
    case Plain => if serial then SerialOutput(t, s, p) else OwnedOutput(t, s, p)
    case PrimarySpray => PrimaryOutput(t, s, p)
    case FullSpray => if serial then FullOutput(t, s, p) else OwnedOutput(t, s, p)
  }

  lemma OutputsOfInputs(t: Table, s: Option<Session>, mode: Mode, serial: bool, frames: seq<Packet>)
    requires ValidSession(s)
    ensures var outs, ins := BatchOutputs(t, s, mode, serial, frames), Inputs(t, mode, frames);
            |outs| == |ins| && forall i :: 0 <= i < |ins| ==> outs[i] == OutputFor(t, s, mode, serial, ins[i])
  {
  }

  // ---------- What is encrypted, missed and passed on ----------

  /** An input that gets encrypted. */
  predicate Encrypts(t: Table, s: Option<Session>, mode: Mode, p: Packet)
    requires ValidSession(s)
  {
    && |p| >= HEADER_SIZE && s.Some? && Fits(p) && Seal(s.value, p).Ok?
    && (ShardGet(t.shards, DstIdOf(p)).Some? || (mode != PrimarySpray && t.predictive != []))
  }

  /** An input that counts as a route miss. */
  predicate Misses(t: Table, s: Option<Session>, mode: Mode, serial: bool, p: Packet)
    requires ValidSession(s)
  {
    if |p| < HEADER_SIZE then mode == PrimarySpray || (mode == FullSpray && serial)
    else
      || (ShardGet(t.shards, DstIdOf(p)).None? && (mode == PrimarySpray || t.predictive == []))
      || (LengthOf(p) > 0 && !Fits(p) && (mode == PrimarySpray || s.Some?))
      || (s.Some? && Fits(p) && Seal(s.value, p).Err?)
  }

  /** What is sent for an input that is not encrypted: the input, in primary spray redirected and,
      unless it is a miss, cut to its payload; on the parallel path with room for the tag that was
      to come. */
  function PassedOn(t: Table, s: Option<Session>, mode: Mode, serial: bool, p: Packet): seq<byte>
    requires ValidSession(s)
  {
    if |p| < HEADER_SIZE then p
    else if mode == PrimarySpray then
      match ShardGet(t.shards, DstIdOf(p))
      case None => p
      case Some(e) =>
        var q := Redirect(p, PrimaryHop(e, FlowLabelOf(p)));
        if Misses(t, s, mode, serial, p) then q else q[..Min(HEADER_SIZE + LengthOf(p), |q|)]
    else if !serial && s.Some? && Fits(p) && |p| < Target(p)
            && (ShardGet(t.shards, DstIdOf(p)).Some? || t.predictive != []) then
      p + seq(Target(p) - |p|, _ => 0)
    else p
  }

  /** On every path: an input is encrypted, counted as a miss, and otherwise passed on, exactly as
      header, length, route, session and cipher say. */
  lemma OutputMeaning(t: Table, s: Option<Session>, mode: Mode, serial: bool, p: Packet)
    requires ValidSession(s)
    ensures var o := OutputFor(t, s, mode, serial, p);
            && (o.encrypted <==> Encrypts(t, s, mode, p))
            && (o.missed <==> Misses(t, s, mode, serial, p))
            && (!o.encrypted ==> o.bytes == PassedOn(t, s, mode, serial, p))
  {
    hide Routed, Sprayed, ShardGet, Payload, Redirect, PrimaryHop, SprayPrimary;
    if mode == PrimarySpray {
      PrimaryMeaning(t, s, p);
      hide PrimaryOutput;
    } else if |p| >= HEADER_SIZE {
      RoutedMeaning(t, s, p, DropTail);
      RoutedMeaning(t, s, p, KeepTail);
      RoutedMeaning(t, s, p, CoverTail);
    }
  }

  function HowMany(flags: seq<bool>): nat
    decreases |flags|
  {
    if flags == [] then 0 else HowMany(flags[..|flags| - 1]) + (if flags[|flags| - 1] then 1 else 0)
  }

  lemma {:induction false} EmitCounts(received: nat, outs: seq<Output>, enc: seq<bool>, missed: seq<bool>)
    requires |enc| == |missed| == |outs|
    requires forall i :: 0 <= i < |outs| ==> enc[i] == outs[i].encrypted && missed[i] == outs[i].missed
    ensures var st := EmitAll(Nothing(received), outs).stats;
            && st.encrypted == HowMany(enc) && st.routeMisses == HowMany(missed)
            && st.forwarded + st.encrypted == |outs|
    decreases |outs|
  {
    if outs != [] {
      var n := |outs| - 1;
      EmitCounts(received, outs[..n], enc[..n], missed[..n]);
    }
  }

  /** The statistics of a batch on every path: how many of its inputs are encrypted and how many
      are misses; all others are forwarded as they are. */
  lemma BatchCounts(t: Table, s: Option<Session>, mode: Mode, serial: bool, frames: seq<Packet>)
    requires ValidSession(s)
    ensures var ins := Inputs(t, mode, frames);
            var st := EmitAll(Nothing(|frames|), BatchOutputs(t, s, mode, serial, frames)).stats;
            && st.encrypted == HowMany(seq(|ins|, i requires 0 <= i < |ins| => Encrypts(t, s, mode, ins[i])))
            && st.routeMisses == HowMany(seq(|ins|, i requires 0 <= i < |ins| => Misses(t, s, mode, serial, ins[i])))
            && st.forwarded == |ins| - st.encrypted
  {
    var outs, ins := BatchOutputs(t, s, mode, serial, frames), Inputs(t, mode, frames);
    OutputsOfInputs(t, s, mode, serial, frames);
    hide BatchOutputs, Inputs, OutputFor, Encrypts, Misses, PassedOn, HowMany, EmitAll;
    var enc := seq(|ins|, i requires 0 <= i < |ins| => Encrypts(t, s, mode, ins[i]));
    var missed := seq(|ins|, i requires 0 <= i < |ins| => Misses(t, s, mode, serial, ins[i]));
    forall i | 0 <= i < |outs|
      ensures enc[i] == outs[i].encrypted && missed[i] == outs[i].missed
    {
      OutputMeaning(t, s, mode, serial, ins[i]);
    }
    EmitCounts(|frames|, outs, enc, missed);
  }

  // ---------- Counts ----------

  /** How often a frame is sent in full spray. */
  function TimesSent(t: Table, p: Packet): nat {
    if |p| < HEADER_SIZE then 1
    else
      match ShardGet(t.shards, DstIdOf(p))
      case None => 1
      case Some(e) => Max(1, Min(16, 1 + |e.alternates|))
  }

  function TotalSent(t: Table, frames: seq<Packet>): nat
    decreases |frames|
  {
    if frames == [] then 0 else TotalSent(t, frames[..|frames| - 1]) + TimesSent(t, frames[|frames| - 1])
  }

  lemma {:induction false} CopiesTotal(t: Table, frames: seq<Packet>)
    ensures |AllCopies(t, frames)| == TotalSent(t, frames)
    decreases |frames|
  {
    if frames != [] {
      CopiesTotal(t, frames[..|frames| - 1]);
      CopiesCount(t, frames[|frames| - 1]);
    }
  }

  /** On every path: the offsets tile the arena in order, there is one for each packet forwarded
      or encrypted, misses are among the forwarded, and the number sent is the number received
      or, in full spray, the sum over the frames of their channels. */
  lemma BatchIsAccounted(t: Table, s: Option<Session>, mode: Mode, serial: bool, frames: seq<Packet>)
    requires ValidSession(s)
    ensures var outs := BatchOutputs(t, s, mode, serial, frames);
            var sent := EmitAll(Nothing(|frames|), outs);
            && Tiles(sent.bytes, sent.offsets, outs)
            && sent.stats.received == |frames|
            && |sent.offsets| == sent.stats.forwarded + sent.stats.encrypted
            && sent.stats.routeMisses <= sent.stats.forwarded
            && |sent.offsets| == (if mode == FullSpray then TotalSent(t, frames) else |frames|)
  {
    var outs, ins := BatchOutputs(t, s, mode, serial, frames), Inputs(t, mode, frames);
    OutputsOfInputs(t, s, mode, serial, frames);
    hide BatchOutputs, SerialOutput, OwnedOutput, PrimaryOutput, FullOutput, AllCopies;
    forall i | 0 <= i < |outs|
      ensures !(outs[i].encrypted && outs[i].missed)
    {
      OutputIsExclusive(t, s, ins[i]);
    }
    StatsAddUp(|frames|, outs);
    OutputsTileArena(|frames|, outs);
    CopiesTotal(t, frames);
  }

  // ---------- Decryption ----------

  /** The frame a sent packet comes from, and which of the frame's copies it is. */
  datatype Origin = Origin(frame: nat, copy: nat)

  /** Where the `i`-th copy of a full-spray batch comes from: the copies of a frame follow those of
      all frames before it. */
  function OriginOf(t: Table, frames: seq<Packet>, i: nat): (o: Origin)
    requires i < TotalSent(t, frames)
    ensures o.frame < |frames| && o.copy < TimesSent(t, frames[o.frame])
    ensures i == TotalSent(t, frames[..o.frame]) + o.copy
    decreases |frames|
  {
    var front := frames[..|frames| - 1];
    if i < TotalSent(t, front) then
      var o := OriginOf(t, front, i);
      assert front[..o.frame] == frames[..o.frame];
      o
    else Origin(|frames| - 1, i - TotalSent(t, front))
  }

  /** Where the `i`-th packet of a batch comes from: outside full spray, from the frame at its own
      position. */
  function Source(t: Table, mode: Mode, frames: seq<Packet>, i: nat): (o: Origin)
    requires i < if mode == FullSpray then TotalSent(t, frames) else |frames|
    ensures o.frame < |frames|
  {
    if mode == FullSpray then OriginOf(t, frames, i) else Origin(i, 0)
  }

  /** One step of `OriginOf` and of what it looks up. */
  lemma OriginStep(t: Table, frames: seq<Packet>, i: nat)
    requires i < TotalSent(t, frames)
    ensures frames != []
    ensures var front, last := frames[..|frames| - 1], frames[|frames| - 1];
            && AllCopies(t, frames) == AllCopies(t, front) + Copies(t, last)
            && |AllCopies(t, front)| == TotalSent(t, front) && |Copies(t, last)| == TimesSent(t, last)
            && TotalSent(t, frames) == TotalSent(t, front) + TimesSent(t, last)
            && OriginOf(t, frames, i) == (if i < TotalSent(t, front) then OriginOf(t, front, i)
                                          else Origin(|frames| - 1, i - TotalSent(t, front)))
  {
    CopiesTotal(t, frames[..|frames| - 1]);
    CopiesCount(t, frames[|frames| - 1]);
    hide Copies;
  }

  lemma {:induction false} CopyOfOrigin(t: Table, frames: seq<Packet>, i: nat)
    requires i < TotalSent(t, frames)
    ensures var o := OriginOf(t, frames, i);
            && i < |AllCopies(t, frames)| && o.copy < |Copies(t, frames[o.frame])|
            && AllCopies(t, frames)[i] == Copies(t, frames[o.frame])[o.copy]
    decreases |frames|
  {
    hide Copies, TotalSent, TimesSent, OriginOf, AllCopies;
    OriginStep(t, frames, i);
    var front, last := frames[..|frames| - 1], frames[|frames| - 1];
    var o := OriginOf(t, frames, i);
    if i < TotalSent(t, front) {
      CopyOfOrigin(t, front, i);
      assert front[o.frame] == frames[o.frame];
    } else {
      assert frames[o.frame] == last;
    }
  }

  /** The destination a path writes into the header of a frame's copy. */
  function AimOf(t: Table, mode: Mode, f: Packet, copy: nat): Id
    requires |f| >= HEADER_SIZE
  {
    match mode
    case Plain => DstIdOf(f)
    case PrimarySpray =>
      var hop := SprayPrimary(t.shards, DstIdOf(f), FlowLabelOf(f));
      if hop.Some? then hop.value else DstIdOf(f)
    case FullSpray =>
      var channels := SprayChannels(t.shards, DstIdOf(f), FlowLabelOf(f), MAX_CHANNELS);
      if copy < |channels| then channels[copy] else DstIdOf(f)
  }

  /** The bytes are those of a copy of frame `f`, aimed as the path aims it, for a receiver of `s`. */
  ghost predicate Delivers(t: Table, s: Session, mode: Mode, f: Packet, copy: nat, bytes: seq<byte>)
    requires s.Valid()
  {
    && |f| >= HEADER_SIZE && Fits(f)
    && Decryptable(s, bytes, HeaderOf(f).(dstId := AimOf(t, mode, f, copy)), Payload(f))
  }

  lemma CopyDelivers(t: Table, s: Option<Session>, serial: bool, f: Packet, k: nat)
    requires ValidSession(s) && k < |Copies(t, f)|
    ensures var o := OutputFor(t, s, FullSpray, serial, Copies(t, f)[k]);
            o.encrypted ==> s.Some? && Delivers(t, s.value, FullSpray, f, k, o.bytes)
  {
    var p := Copies(t, f)[k];
    if !OutputFor(t, s, FullSpray, serial, p).encrypted {
      return;
    }
    CopiesCount(t, f);
    CopyIs(t, f, k);
    RoutedDecrypts(t, s, p, if serial then KeepTail else CoverTail);
    hide Decryptable, Routed, HeaderOf, Copies;
    if p == f {
      HeaderKeepsDst(f);
    } else {
      RedirectFields(f, AimOf(t, FullSpray, f, k));
      RedirectKeepsPayload(f, AimOf(t, FullSpray, f, k));
    }
  }

  /** A copy is the frame aimed at its channel, or the frame as it was. */
  lemma CopyIs(t: Table, f: Packet, k: nat)
    requires k < |Copies(t, f)| && |f| >= HEADER_SIZE
    ensures Copies(t, f)[k] == Redirect(f, AimOf(t, FullSpray, f, k))
            || (Copies(t, f)[k] == f && AimOf(t, FullSpray, f, k) == DstIdOf(f))
  {
  }

  lemma HeaderKeepsDst(f: Packet)
    requires |f| >= HEADER_SIZE
    ensures HeaderOf(f).(dstId := DstIdOf(f)) == HeaderOf(f)
  {
  }

  lemma FrameDelivers(t: Table, s: Option<Session>, mode: Mode, serial: bool, f: Packet)
    requires ValidSession(s) && mode != FullSpray
    ensures var o := OutputFor(t, s, mode, serial, f);
            o.encrypted ==> s.Some? && Delivers(t, s.value, mode, f, 0, o.bytes)
  {
    hide Decryptable;
    if !OutputFor(t, s, mode, serial, f).encrypted {
      return;
    }
    if mode == Plain {
      RoutedDecrypts(t, s, f, if serial then DropTail else CoverTail);
      HeaderKeepsDst(f);
    } else {
      PrimaryDecrypts(t, s, f);
    }
  }

  lemma InputDelivers(t: Table, s: Option<Session>, mode: Mode, serial: bool, frames: seq<Packet>, i: nat)
    requires ValidSession(s) && i < |Inputs(t, mode, frames)|
    requires i < if mode == FullSpray then TotalSent(t, frames) else |frames|
    ensures var o, from := OutputFor(t, s, mode, serial, Inputs(t, mode, frames)[i]), Source(t, mode, frames, i);
            o.encrypted ==> s.Some? && Delivers(t, s.value, mode, frames[from.frame], from.copy, o.bytes)
  {
    hide Delivers, OutputFor;
    if mode == FullSpray {
      CopyOfOrigin(t, frames, i);
      var o := OriginOf(t, frames, i);
      CopyDelivers(t, s, serial, frames[o.frame], o.copy);
    } else {
      FrameDelivers(t, s, mode, serial, frames[i]);
    }
  }

  lemma TileSlice(sent: Sent, outs: seq<Output>, i: nat)
    requires Tiles(sent.bytes, sent.offsets, outs) && i < |outs|
    ensures i < |sent.offsets| && sent.offsets[i].0 + sent.offsets[i].1 <= |sent.bytes|
    ensures SentPacket(sent, i) == outs[i].bytes
  {
  }

  lemma InputsCount(t: Table, mode: Mode, frames: seq<Packet>)
    ensures |Inputs(t, mode, frames)| == if mode == FullSpray then TotalSent(t, frames) else |frames|
  {
    CopiesTotal(t, frames);
  }

  /** End to end: of what a batch hands to the socket, the `i`-th packet, if it is counted as
      encrypted, carries the header of the frame it comes from (in full spray the one whose copies
      take up its position), with no field but the destination changed and that to the hop its path
      aims this copy at, and decrypts to that frame's payload. */
  lemma EncryptedPacketsDecrypt(t: Table, s: Option<Session>, mode: Mode, serial: bool, frames: seq<Packet>, i: nat)
    requires ValidSession(s) && i < |BatchOutputs(t, s, mode, serial, frames)|
    ensures var outs := BatchOutputs(t, s, mode, serial, frames);
            var sent := EmitAll(Nothing(|frames|), outs);
            && i < |sent.offsets| && sent.offsets[i].0 + sent.offsets[i].1 <= |sent.bytes|
            && SentPacket(sent, i) == outs[i].bytes
            && |outs| == (if mode == FullSpray then TotalSent(t, frames) else |frames|)
            && var from := Source(t, mode, frames, i);
               outs[i].encrypted ==>
                 s.Some? && Delivers(t, s.value, mode, frames[from.frame], from.copy, SentPacket(sent, i))
  {
    var outs := BatchOutputs(t, s, mode, serial, frames);
    OutputsOfInputs(t, s, mode, serial, frames);
    OutputsTileArena(|frames|, outs);
    InputsCount(t, mode, frames);
    hide BatchOutputs, Delivers, OutputFor, Tiles, SentPacket, EmitAll, Inputs, Source;
    InputDelivers(t, s, mode, serial, frames, i);
    TileSlice(EmitAll(Nothing(|frames|), outs), outs, i);
  }
}
