/** The AEAD wrapper of `crypto/src/session.rs`. The cipher itself is a parameter that meets
    the contract of section 2 of RFC 5116: encryption may fail, and decryption of what
    encryption produced, under the same nonce, gives the plaintext back. */
module Session {
  import opened Bits

  const TAG_SIZE: nat := 16
  const NONCE_SIZE: nat := 12
  const PAYLOAD_LIMIT: nat := 0x100_0000

  datatype Sealed = Sealed(ciphertext: seq<byte>, tag: seq<byte>)

  datatype Cipher = Cipher(
    seal: (seq<byte>, seq<byte>) -> Option<Sealed>,
    open: (seq<byte>, seq<byte>) -> Option<seq<byte>>)

  ghost predicate MeetsContract(c: Cipher) {
    forall nonce: seq<byte>, plain: seq<byte> ::
      c.seal(nonce, plain).Some? ==>
        var s := c.seal(nonce, plain).value;
        |s.ciphertext| == |plain| && |s.tag| == TAG_SIZE && c.open(nonce, s.ciphertext + s.tag) == Some(plain)
  }

  /** The witness, a cipher that appends a constant tag, only shows that the contract can be met. */
  type Aead = c: Cipher | MeetsContract(c)
    ghost witness Cipher(
      (n, p) => Some(Sealed(p, seq(TAG_SIZE, _ => 0))),
      (n, c) => if |c| < TAG_SIZE then None else Some(c[..|c| - TAG_SIZE]))

  datatype Session = Session(aead: Aead, noncePrefix: seq<byte>, nonceXor: u64) {
    predicate Valid() { |noncePrefix| == 4 }
  }

  datatype SessionError = PayloadTooLarge | CiphertextTooShort | AuthenticationFailed

  datatype Result<+T> = Ok(value: T) | Err(error: SessionError)

  /** The fixed prefix, then the sequence number mixed with the mask, big-endian. */
  function BuildNonce(s: Session, seqNum: u64): (nonce: seq<byte>)
    requires s.Valid()
    ensures |nonce| == NONCE_SIZE
  {
    s.noncePrefix + ToBE(Xor64(s.nonceXor, seqNum), 8)
  }

  function EncryptDetached(s: Session, payload: seq<byte>, seqNum: u64): (r: Result<Sealed>)
    requires s.Valid()
    ensures r.Ok? ==> |r.value.ciphertext| == |payload| && |r.value.tag| == TAG_SIZE
  {
    if |payload| > PAYLOAD_LIMIT then Err(PayloadTooLarge)
    else
      match s.aead.seal(BuildNonce(s, seqNum), payload)
      case None => Err(AuthenticationFailed)
      case Some(x) => Ok(x)
  }

  /** `decrypt` (and `decrypt_in_place`, which leaves the same bytes). */
  function Decrypt(s: Session, ciphertext: seq<byte>, seqNum: u64): Result<seq<byte>>
    requires s.Valid()
  {
    if |ciphertext| < TAG_SIZE then Err(CiphertextTooShort)
    else
      match s.aead.open(BuildNonce(s, seqNum), ciphertext)
      case None => Err(AuthenticationFailed)
      case Some(plain) => Ok(plain)
  }

  /** `encrypt_into_slice`: `buf[lo..hi]` becomes the ciphertext, the tag is returned.
      On an error the slice is left alone, as the cipher checks lengths before it writes. */
  method EncryptIntoSlice(s: Session, buf: array<byte>, lo: nat, hi: nat, seqNum: u64)
    returns (r: Result<seq<byte>>)
    requires s.Valid()
    requires lo <= hi <= buf.Length
    modifies buf
    ensures var spec := EncryptDetached(s, old(buf[lo..hi]), seqNum);
            match spec
            case Ok(x) => r == Ok(x.tag) && buf[..] == Patch(old(buf[..]), lo, x.ciphertext)
            case Err(e) => r == Err(e) && buf[..] == old(buf[..])
    ensures r.Ok? ==> |r.value| == TAG_SIZE && Decrypt(s, buf[lo..hi] + r.value, seqNum) == Ok(old(buf[lo..hi]))
  {
    hide EncryptDetached, Decrypt, BuildNonce;
    var plain := buf[lo..hi];
    match EncryptDetached(s, plain, seqNum)
    case Err(e) =>
      r := Err(e);
    case Ok(x) =>
      DecryptEncrypt(s, plain, seqNum);
      forall i | 0 <= i < |x.ciphertext| {
        buf[lo + i] := x.ciphertext[i];
      }
      assert buf[lo..hi] == x.ciphertext;
      r := Ok(x.tag);
  }

  /** Decrypting under the sequence number used to encrypt gives the payload back. */
  lemma DecryptEncrypt(s: Session, payload: seq<byte>, seqNum: u64)
    requires s.Valid() && EncryptDetached(s, payload, seqNum).Ok?
    ensures var x := EncryptDetached(s, payload, seqNum).value;
            Decrypt(s, x.ciphertext + x.tag, seqNum) == Ok(payload)
  {
    var sealed := s.aead.seal(BuildNonce(s, seqNum), payload);
    assert MeetsContract(s.aead);
  }

  /** The nonce starts with the session's prefix; the rest, read big-endian, is the sequence number
      under the session's mask. */
  lemma NonceLayout(s: Session, seqNum: u64, i: nat)
    requires s.Valid()
    ensures var n := BuildNonce(s, seqNum);
            && n[..4] == s.noncePrefix && FromBE(n[4..]) == Xor(s.nonceXor, seqNum)
            && (i < 8 ==> n[4 + i] == Xor(s.nonceXor, seqNum) / Pow256(7 - i) % 256)
  {
    var x, n := Xor64(s.nonceXor, seqNum), BuildNonce(s, seqNum);
    assert Pow256(8) == TWO_TO_64;
    assert n[4..] == ToBE(x, 8);
    DecodeEncode(x, 8);
    if i < 8 {
      ToBEDigit(x, 8, i);
    }
  }

  /** Both directions use the cipher under the nonce of the sequence number, and fail exactly on
      a length out of bounds or when the cipher does. */
  lemma CipherUnderNonce(s: Session, seqNum: u64, payload: seq<byte>, sealed: seq<byte>)
    requires s.Valid()
    ensures forall x :: EncryptDetached(s, payload, seqNum) == Ok(x) <==>
                        |payload| <= 0x100_0000 && s.aead.seal(BuildNonce(s, seqNum), payload) == Some(x)
    ensures forall p :: Decrypt(s, sealed, seqNum) == Ok(p) <==>
                        |sealed| >= 16 && s.aead.open(BuildNonce(s, seqNum), sealed) == Some(p)
  {
    hide BuildNonce;
  }

  /** Within one session a nonce repeats only when the sequence number does
      (the uniqueness requirement of section 8 of NIST SP 800-38D). */
  lemma NonceRepeatsOnlyWithSequence(s: Session, a: u64, b: u64)
    requires s.Valid()
    ensures BuildNonce(s, a) == BuildNonce(s, b) <==> a == b
  {
    if BuildNonce(s, a) == BuildNonce(s, b) {
      assert BuildNonce(s, a)[4..] == ToBE(Xor64(s.nonceXor, a), 8);
      assert BuildNonce(s, b)[4..] == ToBE(Xor64(s.nonceXor, b), 8);
      assert Pow256(8) == TWO_TO_64;
      DecodeEncode(Xor64(s.nonceXor, a), 8);
      DecodeEncode(Xor64(s.nonceXor, b), 8);
      XorInjective(s.nonceXor, a, b);
    }
  }
}
