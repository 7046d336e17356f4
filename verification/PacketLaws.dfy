/** Laws of the packet paths of `datapath/src/lib.rs`: what a receiver can decrypt, how outputs
    tile the arena, how long they get, and exactly when two paths send the same. */
module PacketLaws {
  import opened Bits
  import opened Wire
  import opened Session
  import opened Selection
  import opened RouteTable
  import opened Packets
  import opened Arena

  // ---------- Batches of outputs ----------

  ghost predicate Tiles(bytes: seq<byte>, offsets: seq<(nat, nat)>, outs: seq<Output>) {
    && |offsets| == |outs|
    && (forall i :: 0 <= i < |outs| ==>
          && offsets[i].1 == |outs[i].bytes|
          && offsets[i].0 == (if i == 0 then 0 else offsets[i - 1].0 + offsets[i - 1].1)
          && offsets[i].0 + offsets[i].1 <= |bytes|
          && bytes[offsets[i].0..offsets[i].0 + offsets[i].1] == outs[i].bytes)
    && |bytes| == (if outs == [] then 0 else offsets[|outs| - 1].0 + offsets[|outs| - 1].1)
  }

  lemma TileOneMore(bytes: seq<byte>, offsets: seq<(nat, nat)>, outs: seq<Output>, o: Output)
    requires Tiles(bytes, offsets, outs)
    ensures Tiles(bytes + o.bytes, offsets + [(|bytes|, |o.bytes|)], outs + [o])
  {
    SliceOfFront(bytes, o.bytes);
    assert (bytes + o.bytes)[|bytes|..|bytes| + |o.bytes|] == o.bytes;
  }

  /** The offsets cover the arena without gap or overlap, in the order of the outputs. */
  lemma {:induction false} OutputsTileArena(received: nat, outs: seq<Output>)
    ensures var s := EmitAll(Nothing(received), outs); Tiles(s.bytes, s.offsets, outs)
    decreases |outs|
  {
    if outs != [] {
      var front, last := outs[..|outs| - 1], outs[|outs| - 1];
      OutputsTileArena(received, front);
      hide Tiles;
      var s := EmitAll(Nothing(received), front);
      TileOneMore(s.bytes, s.offsets, front, last);
      assert outs == front + [last];
    }
  }

  /** No output is both encrypted and counted as a miss. */
  ghost predicate Exclusive(outs: seq<Output>) {
    forall i :: 0 <= i < |outs| ==> !(outs[i].encrypted && outs[i].missed)
  }

  /** One offset for every packet forwarded or encrypted; misses are among the forwarded. */
  lemma {:induction false} StatsAddUp(received: nat, outs: seq<Output>)
    requires Exclusive(outs)
    ensures var s := EmitAll(Nothing(received), outs);
            && |s.offsets| == s.stats.forwarded + s.stats.encrypted == |outs|
            && s.stats.routeMisses <= s.stats.forwarded
            && s.stats.received == received
    decreases |outs|
  {
    if outs != [] {
      StatsAddUp(received, outs[..|outs| - 1]);
    }
  }

  lemma EmitStep(s: Sent, outs: seq<Output>, i: nat)
    requires i < |outs|
    ensures EmitAll(s, outs[..i + 1]) == Emit(EmitAll(s, outs[..i]), outs[i])
  {
    assert outs[..i + 1][..i] == outs[..i];
  }

  lemma {:induction false} EmitConcat(s: Sent, a: seq<Output>, b: seq<Output>)
    ensures EmitAll(EmitAll(s, a), b) == EmitAll(s, a + b)
    decreases |b|
  {
    if b == [] {
      assert a + b == a;
    } else {
      assert (a + b)[..|a + b| - 1] == a + b[..|b| - 1];
      EmitConcat(s, a, b[..|b| - 1]);
    }
  }

  /** What was sent determines the bytes of every output. */
  lemma {:induction false} SentDeterminesBytes(received: nat, a: seq<Output>, b: seq<Output>)
    requires EmitAll(Nothing(received), a).bytes == EmitAll(Nothing(received), b).bytes
    requires EmitAll(Nothing(received), a).offsets == EmitAll(Nothing(received), b).offsets
    ensures |a| == |b| && forall i :: 0 <= i < |a| ==> a[i].bytes == b[i].bytes
    decreases |a|
  {
    OutputsTileArena(received, a);
    OutputsTileArena(received, b);
  }

  // ---------- Header fields of a redirected packet ----------

  /** Writing the next hop changes the destination field and nothing else. */
  lemma RedirectFields(p: Packet, nh: Id)
    requires |p| >= HEADER_SIZE
    ensures HeaderOf(Redirect(p, nh)) == HeaderOf(p).(dstId := nh)
    ensures Redirect(p, nh)[HEADER_SIZE..] == p[HEADER_SIZE..]
  {
    EditChangesOneField(p, SetDst(nh));
  }

  /** A redirected packet has the same payload and seals to the same ciphertext. */
  lemma RedirectKeepsPayload(p: Packet, nh: Id)
    requires |p| >= HEADER_SIZE
    ensures var q := Redirect(p, nh);
            && LengthOf(q) == LengthOf(p) && SeqNumOf(q) == SeqNumOf(p) && Fits(q) == Fits(p)
            && SrcIdOf(q) == SrcIdOf(p) && FlowLabelOf(q) == FlowLabelOf(p) && DstIdOf(q) == nh
            && (Fits(p) ==> Payload(q) == Payload(p) && forall tail :: TailBytes(q, tail) == TailBytes(p, tail))
  {
    RedirectFields(p, nh);
    var q := Redirect(p, nh);
    assert HeaderOf(q) == HeaderOf(p).(dstId := nh);
    if Fits(p) {
      assert Payload(q) == q[HEADER_SIZE..][..LengthOf(p)];
      assert Payload(p) == p[HEADER_SIZE..][..LengthOf(p)];
      forall k | HEADER_SIZE <= k <= |p|
        ensures q[k..] == p[k..]
      {
        assert q[k..] == q[HEADER_SIZE..][k - HEADER_SIZE..] && p[k..] == p[HEADER_SIZE..][k - HEADER_SIZE..];
      }
    }
  }

  // ---------- Decryption at the receiver ----------

  /** The receiver parses the header it should, and decrypts the declared payload. */
  ghost predicate Decryptable(s: Session, bytes: seq<byte>, header: Header, payload: seq<byte>)
    requires s.Valid()
  {
    && Parse(bytes) == Some(header)
    && |bytes| >= HEADER_SIZE + |payload| + TAG_SIZE
    && Decrypt(s, bytes[HEADER_SIZE..HEADER_SIZE + |payload| + TAG_SIZE], header.seqNum) == Ok(payload)
  }

  /** Header bytes, ciphertext and tag, in this order, are decryptable whatever follows. */
  lemma SealedIsDecryptable(s: Session, header: Header, head: seq<byte>, payload: seq<byte>, rest: seq<byte>)
    requires s.Valid() && |head| == HEADER_SIZE && HeaderOf(head) == header
    requires EncryptDetached(s, payload, header.seqNum).Ok?
    ensures var x := EncryptDetached(s, payload, header.seqNum).value;
            Decryptable(s, head + x.ciphertext + x.tag + rest, header, payload)
  {
    var x := EncryptDetached(s, payload, header.seqNum).value;
    DecryptEncrypt(s, payload, header.seqNum);
    var sealed := x.ciphertext + x.tag;
    SealedMiddle(head, x.ciphertext, x.tag, rest);
    MarshalParse(head);
    assert head[..HEADER_SIZE] == head;
    ParseMarshal(header, sealed + rest);
  }

  lemma SealedMiddle(head: seq<byte>, ct: seq<byte>, tag: seq<byte>, rest: seq<byte>)
    ensures head + ct + tag + rest == head + (ct + tag + rest)
    ensures (head + ct + tag + rest)[|head|..|head| + |ct| + |tag|] == ct + tag
  {
  }

  lemma HeadOf(p: Packet)
    requires |p| >= HEADER_SIZE
    ensures HeaderOf(p[..HEADER_SIZE]) == HeaderOf(p)
  {
    MarshalParse(p);
    ParseMarshal(HeaderOf(p), []);
    assert Marshal(HeaderOf(p)) + [] == p[..HEADER_SIZE];
  }

  /** Serial, slice, parallel and full-spray paths: an encrypted output parses to the header of
      the packet (or copy) it came from and decrypts to its payload. */
  lemma RoutedDecrypts(t: Table, s: Option<Session>, p: Packet, tail: Tail)
    requires |p| >= HEADER_SIZE && ValidSession(s) && Routed(t, s, p, tail).encrypted
    ensures s.Some? && Fits(p)
            && Decryptable(s.value, Routed(t, s, p, tail).bytes, HeaderOf(p), Payload(p))
  {
    HeadOf(p);
    SealedIsDecryptable(s.value, HeaderOf(p), p[..HEADER_SIZE], Payload(p), TailBytes(p, tail));
  }

  /** Primary spray: the same, with the chosen hop as destination. */
  lemma PrimaryDecrypts(t: Table, s: Option<Session>, p: Packet)
    requires ValidSession(s) && PrimaryOutput(t, s, p).encrypted
    ensures |p| >= HEADER_SIZE && s.Some? && Fits(p)
    ensures var hop := SprayPrimary(t.shards, DstIdOf(p), FlowLabelOf(p));
            hop.Some?
            && Decryptable(s.value, PrimaryOutput(t, s, p).bytes, HeaderOf(p).(dstId := hop.value), Payload(p))
  {
    var nh := SprayPrimary(t.shards, DstIdOf(p), FlowLabelOf(p)).value;
    var q := Redirect(p, nh);
    RedirectFields(p, nh);
    HeadOf(q);
    SealedIsDecryptable(s.value, HeaderOf(q), q[..HEADER_SIZE], Payload(p), TailBytes(p, KeepTail));
  }

  // ---------- What becomes of a packet ----------

  /** Serial, slice, parallel and full-spray paths: when a packet is encrypted, when it counts as a
      miss, and what it is passed on as otherwise. */
  lemma RoutedMeaning(t: Table, s: Option<Session>, p: Packet, tail: Tail)
    requires |p| >= HEADER_SIZE && ValidSession(s)
    ensures var o := Routed(t, s, p, tail);
            var routed := ShardGet(t.shards, DstIdOf(p)).Some? || t.predictive != [];
            && (o.encrypted <==> routed && s.Some? && Fits(p) && Seal(s.value, p).Ok?)
            && (o.missed <==> !routed || (s.Some? && LengthOf(p) > 0 && !o.encrypted))
            && (!o.encrypted ==>
                  o.bytes == if tail == CoverTail && routed && s.Some? && Fits(p) && |p| < Target(p)
                             then p + seq(Target(p) - |p|, _ => 0) else p)
  {
    RouteExists(t, SrcIdOf(p), DstIdOf(p), FlowLabelOf(p));
    hide LookupOrPredict, ShardGet, Payload, Seal, EncryptedBytes;
  }

  /** Its bytes when it is encrypted: header, ciphertext, tag, and of the bytes after the payload
      none, all, or those past the tag's place. */
  lemma EncryptedLayout(t: Table, s: Option<Session>, p: Packet, tail: Tail)
    requires |p| >= HEADER_SIZE && ValidSession(s) && Routed(t, s, p, tail).encrypted
    ensures s.Some? && Fits(p) && Seal(s.value, p).Ok?
    ensures var b, x := Routed(t, s, p, tail).bytes, Seal(s.value, p).value;
            && |b| >= Target(p) && b[..HEADER_SIZE] == p[..HEADER_SIZE]
            && b[HEADER_SIZE..HEADER_SIZE + LengthOf(p)] == x.ciphertext
            && b[HEADER_SIZE + LengthOf(p)..Target(p)] == x.tag
            && b[Target(p)..] == match tail
                                 case DropTail => []
                                 case KeepTail => p[HEADER_SIZE + LengthOf(p)..]
                                 case CoverTail => if |p| <= Target(p) then [] else p[Target(p)..]
  {
    hide HasRoute, Payload;
    var x := Seal(s.value, p).value;
    Layered(p[..HEADER_SIZE], x.ciphertext, x.tag, TailBytes(p, tail));
  }

  lemma Layered(a: seq<byte>, b: seq<byte>, c: seq<byte>, d: seq<byte>)
    ensures var s := a + b + c + d;
            && s[..|a|] == a && s[|a|..|a| + |b|] == b
            && s[|a| + |b|..|a| + |b| + |c|] == c && s[|a| + |b| + |c|..] == d
  {
  }

  /** The primary-spray path: the same questions, where only a route of the destination counts. */
  lemma PrimaryMeaning(t: Table, s: Option<Session>, p: Packet)
    requires ValidSession(s)
    ensures var o := PrimaryOutput(t, s, p);
            && (o.encrypted <==>
                  && |p| >= HEADER_SIZE && ShardGet(t.shards, DstIdOf(p)).Some?
                  && s.Some? && Fits(p) && Seal(s.value, p).Ok?)
            && (o.missed <==>
                  || |p| < HEADER_SIZE || ShardGet(t.shards, DstIdOf(p)).None?
                  || (LengthOf(p) > 0 && (!Fits(p) || (s.Some? && Seal(s.value, p).Err?))))
            && (!o.encrypted ==>
                  if |p| < HEADER_SIZE || ShardGet(t.shards, DstIdOf(p)).None? then o.bytes == p
                  else
                    var q := Redirect(p, PrimaryHop(ShardGet(t.shards, DstIdOf(p)).value, FlowLabelOf(p)));
                    if o.missed then o.bytes == q
                    else |q| >= HEADER_SIZE + LengthOf(p) && o.bytes == q[..HEADER_SIZE + LengthOf(p)])
  {
    hide ShardGet, Redirect, PrimaryHop, Payload, Seal, FlowLabelOf, DstIdOf;
  }

  /** Its bytes when it is encrypted: the redirected header, ciphertext, tag, and all that followed
      the payload. */
  lemma PrimaryLayout(t: Table, s: Option<Session>, p: Packet)
    requires ValidSession(s) && PrimaryOutput(t, s, p).encrypted
    ensures |p| >= HEADER_SIZE && s.Some? && Fits(p) && Seal(s.value, p).Ok?
    ensures ShardGet(t.shards, DstIdOf(p)).Some?
    ensures var b, x := PrimaryOutput(t, s, p).bytes, Seal(s.value, p).value;
            var q := Redirect(p, PrimaryHop(ShardGet(t.shards, DstIdOf(p)).value, FlowLabelOf(p)));
            && |b| == |p| + TAG_SIZE && b[..HEADER_SIZE] == q[..HEADER_SIZE]
            && b[HEADER_SIZE..HEADER_SIZE + LengthOf(p)] == x.ciphertext
            && b[HEADER_SIZE + LengthOf(p)..Target(p)] == x.tag
            && b[Target(p)..] == p[HEADER_SIZE + LengthOf(p)..]
  {
    hide ShardGet, Redirect, PrimaryHop, Payload, FlowLabelOf, DstIdOf;
    var x := Seal(s.value, p).value;
    var q := Redirect(p, PrimaryHop(ShardGet(t.shards, DstIdOf(p)).value, FlowLabelOf(p)));
    Layered(q[..HEADER_SIZE], x.ciphertext, x.tag, TailBytes(p, KeepTail));
  }

  // ---------- When two paths send the same ----------

  /** The packet gets as far as the cipher. */
  predicate Encryptable(t: Table, s: Option<Session>, p: Packet) {
    |p| >= HEADER_SIZE && HasRoute(t, p) && s.Some? && Fits(p)
  }

  function Target(p: Packet): nat
    requires |p| >= HEADER_SIZE
  {
    HEADER_SIZE + LengthOf(p) + TAG_SIZE
  }

  /** Serial and parallel agree on a packet unless it is encrypted and longer than header,
      payload and tag, or the cipher fails on one that is shorter. */
  ghost predicate SerialMatchesOwned(t: Table, s: Option<Session>, p: Packet)
    requires ValidSession(s)
  {
    Encryptable(t, s, p) ==> if Seal(s.value, p).Ok? then |p| <= Target(p) else |p| >= Target(p)
  }

  lemma SerialEqualsOwned(t: Table, s: Option<Session>, p: Packet)
    requires ValidSession(s)
    ensures SerialMatchesOwned(t, s, p) <==> SerialOutput(t, s, p) == OwnedOutput(t, s, p)
    ensures SerialMatchesOwned(t, s, p) <==> SerialOutput(t, s, p).bytes == OwnedOutput(t, s, p).bytes
  {
    if Encryptable(t, s, p) {
      var a, b := SerialOutput(t, s, p), OwnedOutput(t, s, p);
      if Seal(s.value, p).Ok? {
        assert |b.bytes| == |a.bytes| + |TailBytes(p, CoverTail)|;
        if |p| <= Target(p) {
          assert TailBytes(p, CoverTail) == TailBytes(p, DropTail);
        }
      }
    }
  }

  function SerialOutputs(t: Table, s: Option<Session>, frames: seq<Packet>): (outs: seq<Output>)
    requires ValidSession(s)
    ensures |outs| == |frames|
    ensures forall i :: 0 <= i < |frames| ==> outs[i] == SerialOutput(t, s, frames[i])
  {
    seq(|frames|, i requires 0 <= i < |frames| => SerialOutput(t, s, frames[i]))
  }

  function OwnedOutputs(t: Table, s: Option<Session>, frames: seq<Packet>): (outs: seq<Output>)
    requires ValidSession(s)
    ensures |outs| == |frames|
    ensures forall i :: 0 <= i < |frames| ==> outs[i] == OwnedOutput(t, s, frames[i])
  {
    seq(|frames|, i requires 0 <= i < |frames| => OwnedOutput(t, s, frames[i]))
  }

  function PrimaryOutputs(t: Table, s: Option<Session>, frames: seq<Packet>): (outs: seq<Output>)
    requires ValidSession(s)
    ensures |outs| == |frames|
    ensures forall i :: 0 <= i < |frames| ==> outs[i] == PrimaryOutput(t, s, frames[i])
  {
    seq(|frames|, i requires 0 <= i < |frames| => PrimaryOutput(t, s, frames[i]))
  }

  /** A batch: the serial and the parallel path send the same packets in the same order with the
      same statistics exactly when they agree on every frame. */
  lemma SerialEqualsParallel(t: Table, s: Option<Session>, frames: seq<Packet>)
    requires ValidSession(s)
    ensures (forall i :: 0 <= i < |frames| ==> SerialMatchesOwned(t, s, frames[i]))
            <==> EmitAll(Nothing(|frames|), SerialOutputs(t, s, frames))
                 == EmitAll(Nothing(|frames|), OwnedOutputs(t, s, frames))
  {
    var a, b := SerialOutputs(t, s, frames), OwnedOutputs(t, s, frames);
    forall i | 0 <= i < |frames|
      ensures SerialMatchesOwned(t, s, frames[i]) <==> a[i] == b[i]
      ensures SerialMatchesOwned(t, s, frames[i]) <==> a[i].bytes == b[i].bytes
    {
      SerialEqualsOwned(t, s, frames[i]);
    }
    hide SerialMatchesOwned;
    if forall i :: 0 <= i < |frames| ==> SerialMatchesOwned(t, s, frames[i]) {
      assert a == b;
    }
    if EmitAll(Nothing(|frames|), a) == EmitAll(Nothing(|frames|), b) {
      SentDeterminesBytes(|frames|, a, b);
    }
  }

  /** The cipher of section 2 of RFC 5116 may fail; AES-GCM does not on payloads in bounds. */
  ghost predicate NeverFails(s: Option<Session>) {
    s.Some? ==> forall nonce, plain :: |plain| <= PAYLOAD_LIMIT ==> s.value.aead.seal(nonce, plain).Some?
  }

  lemma SealSucceeds(s: Option<Session>, p: Packet)
    requires s.Some? && s.value.Valid() && NeverFails(s) && |p| >= HEADER_SIZE && Fits(p)
    ensures Seal(s.value, p).Ok?
  {
  }

  /** With a cipher that does not fail, lengths, routes and the session decide: the two paths agree
      exactly when no frame that gets encrypted is longer than header, payload and tag. */
  lemma SerialEqualsParallelByLength(t: Table, s: Option<Session>, frames: seq<Packet>)
    requires ValidSession(s) && NeverFails(s)
    ensures (forall i :: 0 <= i < |frames| && Encryptable(t, s, frames[i]) ==> |frames[i]| <= Target(frames[i]))
            <==> EmitAll(Nothing(|frames|), SerialOutputs(t, s, frames))
                 == EmitAll(Nothing(|frames|), OwnedOutputs(t, s, frames))
  {
    hide EmitAll, SerialOutputs, OwnedOutputs;
    SerialEqualsParallel(t, s, frames);
    forall i | 0 <= i < |frames| && Encryptable(t, s, frames[i])
      ensures Seal(s.value, frames[i]).Ok?
    {
      SealSucceeds(s, frames[i]);
    }
    hide Seal, HasRoute, NeverFails;
  }

  // ---------- Full spray ----------

  function AllCopies(t: Table, frames: seq<Packet>): seq<Packet>
    decreases |frames|
  {
    if frames == [] then [] else AllCopies(t, frames[..|frames| - 1]) + Copies(t, frames[|frames| - 1])
  }

  function FullOutputs(t: Table, s: Option<Session>, copies: seq<Packet>): (outs: seq<Output>)
    requires ValidSession(s)
    ensures |outs| == |copies|
    ensures forall i :: 0 <= i < |copies| ==> outs[i] == FullOutput(t, s, copies[i])
  {
    seq(|copies|, i requires 0 <= i < |copies| => FullOutput(t, s, copies[i]))
  }

  /** The two full-spray paths agree on a copy unless its header is cut short, it is encrypted
      with bytes after its payload, or the cipher fails on one too short for the tag. */
  ghost predicate FullMatchesOwned(t: Table, s: Option<Session>, p: Packet)
    requires ValidSession(s)
  {
    && |p| >= HEADER_SIZE
    && (Encryptable(t, s, p) ==>
          if Seal(s.value, p).Ok? then |p| == HEADER_SIZE + LengthOf(p) else |p| >= Target(p))
  }

  lemma FullEqualsOwned(t: Table, s: Option<Session>, p: Packet)
    requires ValidSession(s)
    ensures FullMatchesOwned(t, s, p) <==> FullOutput(t, s, p) == OwnedOutput(t, s, p)
    ensures |p| >= HEADER_SIZE ==>
              (FullMatchesOwned(t, s, p) <==> FullOutput(t, s, p).bytes == OwnedOutput(t, s, p).bytes)
    ensures OwnedOutput(t, s, p).missed ==> FullOutput(t, s, p).missed
  {
    if Encryptable(t, s, p) && Seal(s.value, p).Ok? {
      var a, b := FullOutput(t, s, p), OwnedOutput(t, s, p);
      var x := Seal(s.value, p).value;
      assert |a.bytes| == HEADER_SIZE + |x.ciphertext| + |x.tag| + |TailBytes(p, KeepTail)|;
      assert |b.bytes| == HEADER_SIZE + |x.ciphertext| + |x.tag| + |TailBytes(p, CoverTail)|;
      if |p| == HEADER_SIZE + LengthOf(p) {
        assert TailBytes(p, KeepTail) == TailBytes(p, CoverTail);
      }
    }
  }

  /** When one list misses wherever the other does, equal counts mean equal misses. */
  lemma {:induction false} MissesDominate(received: nat, a: seq<Output>, b: seq<Output>)
    requires |a| == |b| && forall i :: 0 <= i < |a| ==> (b[i].missed ==> a[i].missed)
    ensures var m := EmitAll(Nothing(received), a).stats.routeMisses;
            var n := EmitAll(Nothing(received), b).stats.routeMisses;
            m >= n && (m == n ==> forall i :: 0 <= i < |a| ==> a[i].missed == b[i].missed)
    decreases |a|
  {
    if a != [] {
      MissesDominate(received, a[..|a| - 1], b[..|b| - 1]);
    }
  }

  /** A batch in full spray: the serial and the parallel path send the same packets in the same
      order with the same statistics exactly when they agree on every copy. */
  lemma FullSerialEqualsParallel(t: Table, s: Option<Session>, frames: seq<Packet>)
    requires ValidSession(s)
    ensures var copies := AllCopies(t, frames);
            (forall i :: 0 <= i < |copies| ==> FullMatchesOwned(t, s, copies[i]))
            <==> EmitAll(Nothing(|frames|), FullOutputs(t, s, copies))
                 == EmitAll(Nothing(|frames|), OwnedOutputs(t, s, copies))
  {
    var copies := AllCopies(t, frames);
    var a, b := FullOutputs(t, s, copies), OwnedOutputs(t, s, copies);
    forall i | 0 <= i < |copies|
      ensures FullMatchesOwned(t, s, copies[i]) <==> a[i] == b[i]
      ensures |copies[i]| >= HEADER_SIZE ==> (FullMatchesOwned(t, s, copies[i]) <==> a[i].bytes == b[i].bytes)
      ensures b[i].missed ==> a[i].missed
      ensures |copies[i]| < HEADER_SIZE ==> a[i].missed && !b[i].missed
    {
      FullEqualsOwned(t, s, copies[i]);
    }
    hide FullMatchesOwned, FullOutput, OwnedOutput;
    if forall i :: 0 <= i < |copies| ==> FullMatchesOwned(t, s, copies[i]) {
      assert a == b;
    }
    if EmitAll(Nothing(|frames|), a) == EmitAll(Nothing(|frames|), b) {
      SentDeterminesBytes(|frames|, a, b);
      MissesDominate(|frames|, a, b);
    }
  }

  /** With a cipher that does not fail: exactly when no copy's header is cut short and no encrypted
      copy has bytes after its payload. */
  lemma FullSerialEqualsParallelByLength(t: Table, s: Option<Session>, frames: seq<Packet>)
    requires ValidSession(s) && NeverFails(s)
    ensures var copies := AllCopies(t, frames);
            (forall i :: 0 <= i < |copies| ==>
               && |copies[i]| >= HEADER_SIZE
               && (Encryptable(t, s, copies[i]) ==> |copies[i]| == HEADER_SIZE + LengthOf(copies[i])))
            <==> EmitAll(Nothing(|frames|), FullOutputs(t, s, copies))
                 == EmitAll(Nothing(|frames|), OwnedOutputs(t, s, copies))
  {
    hide EmitAll, FullOutputs, OwnedOutputs, AllCopies;
    FullSerialEqualsParallel(t, s, frames);
    var copies := AllCopies(t, frames);
    forall i | 0 <= i < |copies| && Encryptable(t, s, copies[i])
      ensures Seal(s.value, copies[i]).Ok?
    {
      SealSucceeds(s, copies[i]);
    }
    hide Seal, HasRoute, NeverFails;
  }

  /** Whole headers, nothing after the declared payload, and a cipher that does not fail are
      enough, whatever the routes: then every copy of the frame is treated alike. */
  lemma PlainFramesMatch(t: Table, s: Option<Session>, p: Packet, i: nat)
    requires ValidSession(s) && |p| >= HEADER_SIZE && i < |Copies(t, p)|
    requires LengthOf(p) == 0 || |p| <= HEADER_SIZE + LengthOf(p)
    requires s.Some? && Fits(p) ==> Seal(s.value, p).Ok?
    ensures FullMatchesOwned(t, s, Copies(t, p)[i])
  {
    var channels := SprayChannels(t.shards, DstIdOf(p), FlowLabelOf(p), MAX_CHANNELS);
    if channels != [] {
      RedirectKeepsPayload(p, channels[i]);
    }
  }

  /** A frame is sent once for each of its first sixteen channels, and at least once. */
  lemma CopiesCount(t: Table, p: Packet)
    ensures |Copies(t, p)|
            == if |p| < HEADER_SIZE then 1
               else match ShardGet(t.shards, DstIdOf(p))
                    case None => 1
                    case Some(e) => Min(1 + |e.alternates|, MAX_CHANNELS)
    ensures forall i :: 0 <= i < |Copies(t, p)| ==> |Copies(t, p)[i]| == |p|
  {
  }

  // ---------- Arena space ----------

  /** What the batch paths reserve: every frame and a tag for each. */
  function Need(frames: seq<Packet>): nat
    decreases |frames|
  {
    if frames == [] then 0 else Need(frames[..|frames| - 1]) + |frames[|frames| - 1]| + TAG_SIZE
  }

  lemma OutputsFit(t: Table, s: Option<Session>, p: Packet)
    requires ValidSession(s)
    ensures |SerialOutput(t, s, p).bytes| <= |p| + TAG_SIZE
    ensures |PrimaryOutput(t, s, p).bytes| <= |p| + TAG_SIZE
    ensures |FullOutput(t, s, p).bytes| <= |p| + TAG_SIZE
  {
    if |p| >= HEADER_SIZE {
      RoutedFits(t, s, p, DropTail);
      RoutedFits(t, s, p, KeepTail);
      hide Routed;
      var hop := SprayPrimary(t.shards, DstIdOf(p), FlowLabelOf(p));
      if hop.Some? {
        SprayedFits(s, p, hop.value);
        hide Sprayed;
      }
    }
  }

  lemma RoutedFits(t: Table, s: Option<Session>, p: Packet, tail: Tail)
    requires |p| >= HEADER_SIZE && ValidSession(s) && !tail.CoverTail?
    ensures |Routed(t, s, p, tail).bytes| <= |p| + TAG_SIZE
  {
    hide HasRoute, Payload;
  }

  lemma SprayedFits(s: Option<Session>, p: Packet, nh: Id)
    requires |p| >= HEADER_SIZE && ValidSession(s)
    ensures |Sprayed(s, p, nh).bytes| <= |p| + TAG_SIZE
  {
    hide Payload;
  }

  lemma {:induction false} NeedConcat(a: seq<Packet>, b: seq<Packet>)
    ensures Need(a + b) == Need(a) + Need(b)
    decreases |b|
  {
    if b == [] {
      assert a + b == a;
    } else {
      assert (a + b)[..|a + b| - 1] == a + b[..|b| - 1];
      NeedConcat(a, b[..|b| - 1]);
    }
  }

  lemma NeedStep(frames: seq<Packet>, i: nat)
    requires i < |frames|
    ensures Need(frames[..i + 1]) == Need(frames[..i]) + |frames[i]| + TAG_SIZE <= Need(frames)
  {
    assert frames[..i + 1][..i] == frames[..i];
    NeedConcat(frames[..i + 1], frames[i + 1..]);
    assert frames == frames[..i + 1] + frames[i + 1..];
  }

  // ---------- The full-spray reservation ----------

  function TotalBytes(outs: seq<Output>): nat
    decreases |outs|
  {
    if outs == [] then 0 else TotalBytes(outs[..|outs| - 1]) + |outs[|outs| - 1].bytes|
  }

  lemma {:induction false} TotalMonotone(outs: seq<Output>, n: nat)
    requires n <= |outs|
    ensures TotalBytes(outs[..n]) <= TotalBytes(outs)
    decreases |outs|
  {
    if n == |outs| {
      assert outs[..n] == outs;
    } else {
      TotalMonotone(outs[..|outs| - 1], n);
      assert outs[..|outs| - 1][..n] == outs[..n];
    }
  }

  lemma TotalStep(outs: seq<Output>, i: nat)
    requires i < |outs|
    ensures TotalBytes(outs[..i + 1]) == TotalBytes(outs[..i]) + |outs[i].bytes| <= TotalBytes(outs)
  {
    assert outs[..i + 1][..i] == outs[..i];
    TotalMonotone(outs, i + 1);
  }

  lemma {:induction false} TotalConcat(a: seq<Output>, b: seq<Output>)
    ensures TotalBytes(a + b) == TotalBytes(a) + TotalBytes(b)
    decreases |b|
  {
    if b == [] {
      assert a + b == a;
    } else {
      assert (a + b)[..|a + b| - 1] == a + b[..|b| - 1];
      TotalConcat(a, b[..|b| - 1]);
    }
  }

  /** The arena grows by the bytes of the outputs. */
  lemma {:induction false} EmitBytes(s: Sent, outs: seq<Output>)
    ensures |EmitAll(s, outs).bytes| == |s.bytes| + TotalBytes(outs)
    decreases |outs|
  {
    if outs != [] {
      EmitBytes(s, outs[..|outs| - 1]);
    }
  }

  /** Every unchecked append of a batch stays inside the capacity exactly when all bytes fit. */
  lemma AppendsStayInside(outs: seq<Output>, cap: nat)
    ensures (forall i :: 0 <= i < |outs| ==> TotalBytes(outs[..i]) + |outs[i].bytes| <= cap)
            <==> TotalBytes(outs) <= cap
  {
    forall i | 0 <= i < |outs|
      ensures TotalBytes(outs[..i]) + |outs[i].bytes| <= TotalBytes(outs)
    {
      TotalStep(outs, i);
    }
    if outs != [] {
      TotalStep(outs, |outs| - 1);
      assert outs[..|outs| - 1 + 1] == outs;
    }
  }

  lemma {:induction false} TotalBetween(outs: seq<Output>, lo: nat, hi: nat)
    requires forall i :: 0 <= i < |outs| ==> lo <= |outs[i].bytes| <= hi
    ensures |outs| * lo <= TotalBytes(outs) <= |outs| * hi
    decreases |outs|
  {
    if outs != [] {
      TotalBetween(outs[..|outs| - 1], lo, hi);
      MulMinus(|outs|, 1, lo);
      MulMinus(|outs|, 1, hi);
    }
  }

  /** A full-spray copy takes up at least its own length, and a tag more at most. */
  lemma FullOutputSize(t: Table, s: Option<Session>, p: Packet)
    requires ValidSession(s)
    ensures |p| <= |FullOutput(t, s, p).bytes| <= |p| + TAG_SIZE
  {
    hide HasRoute, Payload;
  }

  lemma CopiesSize(t: Table, s: Option<Session>, p: Packet)
    requires ValidSession(s)
    ensures var total := TotalBytes(FullOutputs(t, s, Copies(t, p)));
            |Copies(t, p)| * |p| <= total <= |Copies(t, p)| * (|p| + TAG_SIZE)
  {
    var outs := FullOutputs(t, s, Copies(t, p));
    CopiesCount(t, p);
    forall i | 0 <= i < |outs|
      ensures |p| <= |outs[i].bytes| <= |p| + TAG_SIZE
    {
      FullOutputSize(t, s, Copies(t, p)[i]);
    }
    hide FullOutputs, FullOutput, Copies;
    TotalBetween(outs, |p|, |p| + TAG_SIZE);
  }

  /** What the full-spray path reserves for a frame, three times the frame and a tag, covers the
      bytes it appends without a check exactly when the route has at most three channels. */
  lemma ReservationCoversFrame(t: Table, s: Option<Session>, p: Packet)
    requires ValidSession(s)
    ensures TotalBytes(FullOutputs(t, s, Copies(t, p))) <= 3 * Need([p]) <==> |Copies(t, p)| <= 3
  {
    CopiesCount(t, p);
    hide FullOutputs, Copies, TotalBytes, Need;
    CopiesSize(t, s, p);
    NeedMore([], p);
    assert [] + [p] == [p];
    var k := |Copies(t, p)|;
    if k > 3 {
      MulAtMost(4, k, |p|);
    } else {
      MulAtMost(k, 3, |p| + TAG_SIZE);
    }
  }

  lemma OutputsOfMore(t: Table, s: Option<Session>, front: seq<Packet>, last: Packet)
    requires ValidSession(s)
    ensures TotalBytes(FullOutputs(t, s, AllCopies(t, front + [last])))
            == TotalBytes(FullOutputs(t, s, AllCopies(t, front))) + TotalBytes(FullOutputs(t, s, Copies(t, last)))
  {
    hide Copies, FullOutput, TotalBytes;
    var a, c := AllCopies(t, front), Copies(t, last);
    assert (front + [last])[..|front|] == front;
    assert FullOutputs(t, s, a + c) == FullOutputs(t, s, a) + FullOutputs(t, s, c);
    TotalConcat(FullOutputs(t, s, a), FullOutputs(t, s, c));
  }

  lemma NothingToSend(t: Table, s: Option<Session>)
    requires ValidSession(s)
    ensures TotalBytes(FullOutputs(t, s, AllCopies(t, []))) == 0 && Need([]) == 0
  {
  }

  lemma NeedMore(front: seq<Packet>, last: Packet)
    ensures Need(front + [last]) == Need(front) + Need([last]) && Need([last]) == |last| + TAG_SIZE
  {
    assert (front + [last])[..|front|] == front;
    assert [last][..0] == [];
  }

  /** Routes of at most three channels keep the whole batch inside, whatever the capacity was. */
  lemma {:induction false} ReservationCoversBatch(t: Table, s: Option<Session>, frames: seq<Packet>, cap: nat)
    requires ValidSession(s)
    requires forall i :: 0 <= i < |frames| ==> |Copies(t, frames[i])| <= 3
    ensures TotalBytes(FullOutputs(t, s, AllCopies(t, frames))) <= 3 * Need(frames) <= Reserved(cap, 3 * Need(frames))
    decreases |frames|
  {
    hide FullOutputs, AllCopies, Copies, TotalBytes, Need;
    if frames == [] {
      NothingToSend(t, s);
    } else {
      var front, last := frames[..|frames| - 1], frames[|frames| - 1];
      assert frames == front + [last];
      ReservationCoversBatch(t, s, front, cap);
      ReservationCoversFrame(t, s, last);
      OutputsOfMore(t, s, front, last);
      NeedMore(front, last);
    }
  }

  /** What the full-spray path appends for its copies, from lengths, routes and session alone: each
      copy's own length, and a tag for each that gets encrypted. */
  function SprayedBytes(t: Table, s: Option<Session>, copies: seq<Packet>): nat
    decreases |copies|
  {
    if copies == [] then 0
    else
      var last := copies[|copies| - 1];
      SprayedBytes(t, s, copies[..|copies| - 1]) + |last| + (if Encryptable(t, s, last) then TAG_SIZE else 0)
  }

  lemma FullOutputLength(t: Table, s: Option<Session>, p: Packet)
    requires ValidSession(s) && NeverFails(s)
    ensures |FullOutput(t, s, p).bytes| == |p| + (if Encryptable(t, s, p) then TAG_SIZE else 0)
  {
    if Encryptable(t, s, p) {
      SealSucceeds(s, p);
    }
    hide HasRoute, Payload, NeverFails;
  }

  lemma {:induction false} SprayedBytesAreAppended(t: Table, s: Option<Session>, copies: seq<Packet>)
    requires ValidSession(s) && NeverFails(s)
    ensures TotalBytes(FullOutputs(t, s, copies)) == SprayedBytes(t, s, copies)
    decreases |copies|
  {
    hide FullOutput, Encryptable, NeverFails;
    if copies != [] {
      var front, last := copies[..|copies| - 1], copies[|copies| - 1];
      SprayedBytesAreAppended(t, s, front);
      FullOutputLength(t, s, last);
      assert FullOutputs(t, s, copies)[..|front|] == FullOutputs(t, s, front);
    }
  }

  /** A full-spray batch on the serial path: every unchecked append stays inside the capacity that
      the reservation leaves exactly when lengths, routes and session say that the bytes fit. */
  lemma FullSprayStaysInside(t: Table, s: Option<Session>, frames: seq<Packet>, cap: nat)
    requires ValidSession(s) && NeverFails(s)
    ensures var outs, room := FullOutputs(t, s, AllCopies(t, frames)), Reserved(cap, 3 * Need(frames));
            && ((forall i :: 0 <= i < |outs| ==> TotalBytes(outs[..i]) + |outs[i].bytes| <= room)
                <==> SprayedBytes(t, s, AllCopies(t, frames)) <= room)
            && (TotalBytes(outs) <= room <==> SprayedBytes(t, s, AllCopies(t, frames)) <= room)
  {
    hide FullOutputs, AllCopies, TotalBytes, SprayedBytes, Need, Reserved, NeverFails;
    SprayedBytesAreAppended(t, s, AllCopies(t, frames));
    AppendsStayInside(FullOutputs(t, s, AllCopies(t, frames)), Reserved(cap, 3 * Need(frames)));
  }

  /** Equal frames with equally many copies: the bytes appended, at least, and the space needed. */
  lemma {:induction false} UniformBatch(t: Table, s: Option<Session>, frames: seq<Packet>, k: nat, size: nat)
    requires ValidSession(s)
    requires forall i :: 0 <= i < |frames| ==> |frames[i]| == size && |Copies(t, frames[i])| == k
    ensures |frames| * (k * size) <= TotalBytes(FullOutputs(t, s, AllCopies(t, frames)))
    ensures Need(frames) == |frames| * (size + TAG_SIZE)
    decreases |frames|
  {
    hide FullOutputs, AllCopies, Copies, TotalBytes, Need;
    if frames == [] {
      NothingToSend(t, s);
    } else {
      var front, last := frames[..|frames| - 1], frames[|frames| - 1];
      assert frames == front + [last];
      UniformBatch(t, s, front, k, size);
      CopiesSize(t, s, last);
      OutputsOfMore(t, s, front, last);
      NeedMore(front, last);
      MulMinus(|frames|, 1, k * size);
      MulMinus(|frames|, 1, size + TAG_SIZE);
    }
  }

  /** The reservation does not hold in general: 64 frames of 1500 bytes, each on sixteen channels,
      append at least 1,536,000 bytes to an arena that has been given 524,288. */
  lemma SixteenChannelsOverflow(t: Table, s: Option<Session>, frames: seq<Packet>)
    requires ValidSession(s) && |frames| == 64
    requires forall i :: 0 <= i < |frames| ==> |frames[i]| == 1500 && |Copies(t, frames[i])| == 16
    ensures 3 * Need(frames) == 291072 && Reserved(INITIAL_CAPACITY, 3 * Need(frames)) == 524288
    ensures TotalBytes(FullOutputs(t, s, AllCopies(t, frames))) >= 1536000
  {
    hide FullOutputs, AllCopies, Copies, TotalBytes, Need, NextPowerOfTwo, IsPowerOfTwo;
    UniformBatch(t, s, frames, 16, 1500);
    WordSizes();
    PowersMultiply(4, 0x1_0000);
    RoundUp(3 * Need(frames), 0x4_0000);
  }
}
