/** The 96-byte packet header: `wire/src/lib.rs`. */
module Wire {
  import opened Bits

  const HEADER_SIZE: nat := 96
  const SRC_OFFSET: nat := 0
  const DST_OFFSET: nat := 32
  const FLOW_OFFSET: nat := 64
  const SEQ_OFFSET: nat := 68
  const SESSION_OFFSET: nat := 76
  const FLAGS_OFFSET: nat := 92
  const LEN_OFFSET: nat := 94

  type Id = s: seq<byte> | |s| == 32 witness seq(32, _ => 0)
  type SessionId = s: seq<byte> | |s| == 16 witness seq(16, _ => 0)

  datatype Header = Header(
    srcId: Id,
    dstId: Id,
    flowLabel: u32,
    seqNum: u64,
    sessionId: SessionId,
    flags: u16,
    length: u16)

  // ---------- Reading: the getters of both views, and `parse` ----------

  function SrcIdOf(buf: seq<byte>): Id
    requires |buf| >= HEADER_SIZE
  {
    buf[SRC_OFFSET..SRC_OFFSET + 32]
  }

  function DstIdOf(buf: seq<byte>): Id
    requires |buf| >= HEADER_SIZE
  {
    buf[DST_OFFSET..DST_OFFSET + 32]
  }

  function FlowLabelOf(buf: seq<byte>): u32
    requires |buf| >= HEADER_SIZE
  {
    assert Pow256(4) == TWO_TO_32;
    FromBE(buf[FLOW_OFFSET..FLOW_OFFSET + 4])
  }

  function SeqNumOf(buf: seq<byte>): u64
    requires |buf| >= HEADER_SIZE
  {
    assert Pow256(8) == TWO_TO_64;
    FromBE(buf[SEQ_OFFSET..SEQ_OFFSET + 8])
  }

  function SessionIdOf(buf: seq<byte>): SessionId
    requires |buf| >= HEADER_SIZE
  {
    buf[SESSION_OFFSET..SESSION_OFFSET + 16]
  }

  function FlagsOf(buf: seq<byte>): u16
    requires |buf| >= HEADER_SIZE
  {
    assert Pow256(2) == 0x1_0000;
    FromBE(buf[FLAGS_OFFSET..FLAGS_OFFSET + 2])
  }

  function LengthOf(buf: seq<byte>): u16
    requires |buf| >= HEADER_SIZE
  {
    assert Pow256(2) == 0x1_0000;
    FromBE(buf[LEN_OFFSET..LEN_OFFSET + 2])
  }

  function HeaderOf(buf: seq<byte>): Header
    requires |buf| >= HEADER_SIZE
  {
    Header(SrcIdOf(buf), DstIdOf(buf), FlowLabelOf(buf), SeqNumOf(buf),
           SessionIdOf(buf), FlagsOf(buf), LengthOf(buf))
  }

  /** `Header::parse`: `None` is the error for a short buffer. */
  function Parse(buf: seq<byte>): Option<Header> {
    if |buf| < HEADER_SIZE then None else Some(HeaderOf(buf))
  }

  // ---------- Writing ----------

  function Marshal(h: Header): (bytes: seq<byte>)
    ensures |bytes| == HEADER_SIZE
  {
    h.srcId + h.dstId + ToBE(h.flowLabel, 4) + ToBE(h.seqNum, 8) + h.sessionId + ToBE(h.flags, 2) + ToBE(h.length, 2)
  }

  /** One unaligned store of a whole field. */
  method Store(buf: array<byte>, off: nat, field: seq<byte>)
    requires off + |field| <= buf.Length
    modifies buf
    ensures buf[..] == Patch(old(buf[..]), off, field)
  {
    forall i | 0 <= i < |field| {
      buf[off + i] := field[i];
    }
  }

  /** `Header::marshal_into`. */
  method MarshalInto(h: Header, buf: array<byte>) returns (ok: bool)
    modifies buf
    ensures ok <==> buf.Length >= HEADER_SIZE
    ensures !ok ==> buf[..] == old(buf[..])
    ensures ok ==> buf[..] == Marshal(h) + old(buf[HEADER_SIZE..])
  {
    if buf.Length < HEADER_SIZE {
      return false;
    }
    ghost var was := buf[..];
    Store(buf, SRC_OFFSET, h.srcId);
    assert buf[..] == h.srcId + was[32..];
    Store(buf, DST_OFFSET, h.dstId);
    assert buf[..] == h.srcId + h.dstId + was[64..];
    Store(buf, FLOW_OFFSET, ToBE(h.flowLabel, 4));
    assert buf[..] == h.srcId + h.dstId + ToBE(h.flowLabel, 4) + was[68..];
    Store(buf, SEQ_OFFSET, ToBE(h.seqNum, 8));
    assert buf[..] == h.srcId + h.dstId + ToBE(h.flowLabel, 4) + ToBE(h.seqNum, 8) + was[76..];
    Store(buf, SESSION_OFFSET, h.sessionId);
    ghost var front := h.srcId + h.dstId + ToBE(h.flowLabel, 4) + ToBE(h.seqNum, 8) + h.sessionId;
    assert buf[..] == front + was[92..];
    Store(buf, FLAGS_OFFSET, ToBE(h.flags, 2));
    assert buf[..] == front + ToBE(h.flags, 2) + was[94..];
    Store(buf, LEN_OFFSET, ToBE(h.length, 2));
    assert buf[..] == front + ToBE(h.flags, 2) + ToBE(h.length, 2) + was[96..];
    return true;
  }

  /** The layout: where each field of a marshalled header is. */
  lemma MarshalFields(h: Header)
    ensures var s := Marshal(h);
            && s[0..32] == h.srcId
            && s[32..64] == h.dstId
            && s[64..68] == ToBE(h.flowLabel, 4)
            && s[68..76] == ToBE(h.seqNum, 8)
            && s[76..92] == h.sessionId
            && s[92..94] == ToBE(h.flags, 2)
            && s[94..96] == ToBE(h.length, 2)
  {
    var a := h.srcId + h.dstId;
    var b := a + ToBE(h.flowLabel, 4);
    var c := b + ToBE(h.seqNum, 8);
    var d := c + h.sessionId;
    var e := d + ToBE(h.flags, 2);
    var s := Marshal(h);
    assert s == e + ToBE(h.length, 2);
    assert s[..94] == e && s[94..96] == ToBE(h.length, 2);
    assert s[..92] == d && s[92..94] == e[92..];
    assert s[..76] == c && s[76..92] == d[76..];
    assert s[..68] == b && s[68..76] == c[68..];
    assert s[..64] == a && s[64..68] == b[64..];
    assert s[0..32] == a[..32] && s[32..64] == a[32..];
  }

  /** Headers that agree field by field are the same bytes. */
  lemma SameFields(s: seq<byte>, t: seq<byte>)
    requires |s| == HEADER_SIZE && |t| == HEADER_SIZE
    requires s[0..32] == t[0..32] && s[32..64] == t[32..64] && s[64..68] == t[64..68]
    requires s[68..76] == t[68..76] && s[76..92] == t[76..92] && s[92..94] == t[92..94] && s[94..96] == t[94..96]
    ensures s == t
  {
    assert s[..64] == s[0..32] + s[32..64] == t[..64];
    assert s[64..92] == s[64..68] + s[68..76] + s[76..92] == t[64..92];
    assert s[92..] == s[92..94] + s[94..96] == t[92..];
    assert s == s[..64] + s[64..92] + s[92..] && t == t[..64] + t[64..92] + t[92..];
  }

  /** Parsing what was marshalled gives the header back, whatever follows it. */
  lemma ParseMarshal(h: Header, rest: seq<byte>)
    ensures Parse(Marshal(h) + rest) == Some(h)
  {
    var buf := Marshal(h) + rest;
    assert Pow256(4) == TWO_TO_32 && Pow256(8) == TWO_TO_64 && Pow256(2) == 0x1_0000;
    DecodeEncode(h.flowLabel, 4);
    DecodeEncode(h.seqNum, 8);
    DecodeEncode(h.flags, 2);
    DecodeEncode(h.length, 2);
    MarshalFields(h);
    hide Marshal;
    SliceOfFront(Marshal(h), rest);
  }

  /** Marshalling what was parsed restores the same 96 bytes. */
  lemma MarshalParse(buf: seq<byte>)
    requires |buf| >= HEADER_SIZE
    ensures Marshal(HeaderOf(buf)) == buf[..HEADER_SIZE]
  {
    EncodeDecode(buf[64..68]);
    EncodeDecode(buf[68..76]);
    EncodeDecode(buf[92..94]);
    EncodeDecode(buf[94..96]);
  }

  /** Where each field is in the bytes, and that its first byte is the most significant. */
  lemma HeaderLayout(buf: seq<byte>, i: nat)
    requires |buf| >= HEADER_SIZE
    ensures var h := HeaderOf(buf);
            && h.srcId == buf[0..32] && h.dstId == buf[32..64] && h.sessionId == buf[76..92]
            && (i < 4 ==> buf[64 + i] == h.flowLabel / Pow256(3 - i) % 256)
            && (i < 8 ==> buf[68 + i] == h.seqNum / Pow256(7 - i) % 256)
            && (i < 2 ==> buf[92 + i] == h.flags / Pow256(1 - i) % 256)
            && (i < 2 ==> buf[94 + i] == h.length / Pow256(1 - i) % 256)
  {
    if i < 4 {
      FromBEDigit(buf[64..68], i);
    }
    if i < 8 {
      FromBEDigit(buf[68..76], i);
    }
    if i < 2 {
      FromBEDigit(buf[92..94], i);
      FromBEDigit(buf[94..96], i);
    }
  }

  // ---------- `HeaderView` setters ----------

  /** One setter call. */
  datatype Edit =
    | SetSrc(id: Id)
    | SetDst(id: Id)
    | SetFlow(flow: u32)
    | SetSeq(seqNum: u64)
    | SetSession(sid: SessionId)
    | SetFlags(flags: u16)
    | SetLength(length: u16)

  function EditOffset(e: Edit): nat {
    match e
    case SetSrc(_) => SRC_OFFSET
    case SetDst(_) => DST_OFFSET
    case SetFlow(_) => FLOW_OFFSET
    case SetSeq(_) => SEQ_OFFSET
    case SetSession(_) => SESSION_OFFSET
    case SetFlags(_) => FLAGS_OFFSET
    case SetLength(_) => LEN_OFFSET
  }

  function EditBytes(e: Edit): (b: seq<byte>)
    ensures EditOffset(e) + |b| <= HEADER_SIZE
  {
    match e
    case SetSrc(id) => id
    case SetDst(id) => id
    case SetFlow(v) => ToBE(v, 4)
    case SetSeq(v) => ToBE(v, 8)
    case SetSession(id) => id
    case SetFlags(v) => ToBE(v, 2)
    case SetLength(v) => ToBE(v, 2)
  }

  /** What the setter promises: one field changes. */
  function ApplyEdit(h: Header, e: Edit): Header {
    match e
    case SetSrc(id) => h.(srcId := id)
    case SetDst(id) => h.(dstId := id)
    case SetFlow(v) => h.(flowLabel := v)
    case SetSeq(v) => h.(seqNum := v)
    case SetSession(id) => h.(sessionId := id)
    case SetFlags(v) => h.(flags := v)
    case SetLength(v) => h.(length := v)
  }

  function ApplyEdits(h: Header, es: seq<Edit>): Header
    decreases es
  {
    if es == [] then h else ApplyEdits(ApplyEdit(h, es[0]), es[1..])
  }

  /** A setter's store rewrites its own field and nothing else. */
  lemma EditChangesOneField(buf: seq<byte>, e: Edit)
    requires |buf| >= HEADER_SIZE
    ensures var after := Patch(buf, EditOffset(e), EditBytes(e));
            after == Marshal(ApplyEdit(HeaderOf(buf), e)) + buf[HEADER_SIZE..]
            && Parse(after) == Some(ApplyEdit(HeaderOf(buf), e))
  {
    var h := HeaderOf(buf);
    MarshalParse(buf);
    PatchFront(Marshal(h), buf[HEADER_SIZE..], EditOffset(e), EditBytes(e));
    assert buf == buf[..HEADER_SIZE] + buf[HEADER_SIZE..];
    PatchedMarshal(h, e);
    ParseMarshal(ApplyEdit(h, e), buf[HEADER_SIZE..]);
  }

  lemma PatchedMarshal(h: Header, e: Edit)
    ensures Patch(Marshal(h), EditOffset(e), EditBytes(e)) == Marshal(ApplyEdit(h, e))
  {
    var s, i, b := Marshal(h), EditOffset(e), EditBytes(e);
    MarshalFields(h);
    MarshalFields(ApplyEdit(h, e));
    PatchSlices(s, i, b);
    SameFields(Patch(s, i, b), Marshal(ApplyEdit(h, e)));
  }

  /** A mutable view of a header in a packet buffer. */
  class HeaderView {
    const buf: array<byte>

    ghost predicate Valid() { buf.Length >= HEADER_SIZE }

    constructor (b: array<byte>)
      requires b.Length >= HEADER_SIZE
      ensures Valid() && buf == b
    {
      buf := b;
    }

    /** Any of the seven setters. */
    method Set(e: Edit)
      requires Valid()
      modifies buf
      ensures buf[..] == Marshal(ApplyEdit(HeaderOf(old(buf[..])), e)) + old(buf[HEADER_SIZE..])
      ensures Parse(buf[..]) == Some(ApplyEdit(HeaderOf(old(buf[..])), e))
    {
      EditChangesOneField(buf[..], e);
      Store(buf, EditOffset(e), EditBytes(e));
    }
  }

  function StoreEdits(buf: seq<byte>, es: seq<Edit>): (r: seq<byte>)
    requires |buf| >= HEADER_SIZE
    ensures |r| == |buf|
    decreases es
  {
    if es == [] then buf else StoreEdits(Patch(buf, EditOffset(es[0]), EditBytes(es[0])), es[1..])
  }

  /** Any sequence of setters parses to the header with those fields replaced in turn. */
  lemma {:induction false} EditsCompose(buf: seq<byte>, es: seq<Edit>)
    requires |buf| >= HEADER_SIZE
    ensures Parse(StoreEdits(buf, es)) == Some(ApplyEdits(HeaderOf(buf), es))
    ensures StoreEdits(buf, es)[HEADER_SIZE..] == buf[HEADER_SIZE..]
    decreases es
  {
    if es != [] {
      EditChangesOneField(buf, es[0]);
      var next := Patch(buf, EditOffset(es[0]), EditBytes(es[0]));
      assert next[HEADER_SIZE..] == buf[HEADER_SIZE..];
      EditsCompose(next, es[1..]);
    }
  }
}
