// AES-256-GCM envelopes: EncryptAESGCM and DecryptAESGCM, WrapKey and UnwrapKey, and the byte
// format they share. The cipher itself is any pair of functions with the properties of
// authenticated encryption (sections 7.1 and 7.2 of NIST SP 800-38D).
module AesGcm {
  import opened Wrappers
  import opened GoSlices

  const IV_SIZE := 12
  const TAG_SIZE := 16
  const KEY_SIZE := 32
  const ALGORITHM := "AES-256-GCM"

  /** seal(key, iv, plaintext) is ciphertext and tag; open(key, iv, sealed) undoes it. */
  datatype Aead = Aead(seal: (seq<Byte>, seq<Byte>, seq<Byte>) -> seq<Byte>,
                       open: (seq<Byte>, seq<Byte>, seq<Byte>) -> Option<seq<Byte>>)

  ghost predicate IsGcm(a: Aead) {
    && (forall k, iv, p :: |a.seal(k, iv, p)| == |p| + TAG_SIZE)
    && (forall k, iv, p :: a.open(k, iv, a.seal(k, iv, p)) == Some(p))
    && (forall k, iv, c :: a.open(k, iv, c).Some? ==> c == a.seal(k, iv, a.open(k, iv, c).value))
  }

  /** Such pairs exist: appending a constant tag has all three properties, if none of secrecy. */
  lemma SomePairIsGcm()
    ensures exists a :: IsGcm(a)
  {
    var a := Aead((k: seq<Byte>, iv: seq<Byte>, p: seq<Byte>) => p + Zeros(TAG_SIZE),
                  (k: seq<Byte>, iv: seq<Byte>, c: seq<Byte>) =>
                    if |c| >= TAG_SIZE && c[|c| - TAG_SIZE..] == Zeros(TAG_SIZE) then Some(c[..|c| - TAG_SIZE]) else None);
    forall k, iv, p ensures a.open(k, iv, a.seal(k, iv, p)) == Some(p) {
      assert (p + Zeros(TAG_SIZE))[..|p|] == p;
    }
    forall k, iv, c | a.open(k, iv, c).Some? ensures c == a.seal(k, iv, a.open(k, iv, c).value) {
      assert c[..|c| - TAG_SIZE] + c[|c| - TAG_SIZE..] == c;
    }
    assert IsGcm(a);
  }

  datatype CryptoError =
    | InvalidAESKeySize | NonceFailed | AESInvalidKey | DecryptFailed
    | WrappingKeyLength | KeyToWrapLength | WrappingKeyShort | UnwrapFailed | InvalidLength

  // ----- on values -------------------------------------------------------------------

  datatype Encrypted = Encrypted(iv: seq<Byte>, ciphertext: seq<Byte>, tag: seq<Byte>, algorithm: string, keyId: string)

  predicate IsValid(e: Encrypted) {
    |e.iv| == IV_SIZE && |e.tag| == TAG_SIZE && |e.ciphertext| > 0 && e.algorithm == ALGORITHM
  }

  /** The nonce source may fail. */
  type Nonce = n: Option<seq<Byte>> | n.Some? ==> |n.value| == IV_SIZE witness None

  function Split(iv: seq<Byte>, sealed: seq<Byte>): Encrypted
    requires |sealed| >= TAG_SIZE
  {
    Encrypted(iv, sealed[..|sealed| - TAG_SIZE], sealed[|sealed| - TAG_SIZE..], ALGORITHM, "")
  }

  ghost function Encrypt(a: Aead, key: seq<Byte>, plaintext: seq<Byte>, nonce: Nonce): Result<Encrypted, CryptoError>
    requires IsGcm(a)
  {
    if |key| != KEY_SIZE then Err(InvalidAESKeySize)
    else if nonce.None? then Err(NonceFailed)
    else Ok(Split(nonce.value, a.seal(key, nonce.value, plaintext)))
  }

  function Decrypt(a: Aead, key: seq<Byte>, e: Encrypted): Result<seq<Byte>, CryptoError> {
    if |key| != KEY_SIZE then Err(InvalidAESKeySize)
    else if !IsValid(e) then Err(AESInvalidKey)
    else
      var p := a.open(key, e.iv, e.ciphertext + e.tag);
      if p.None? then Err(DecryptFailed) else Ok(p.value)
  }

  function Wrap(a: Aead, wrappingKey: seq<Byte>, keyToWrap: seq<Byte>, nonce: Nonce): Result<seq<Byte>, CryptoError> {
    if |wrappingKey| != KEY_SIZE then Err(WrappingKeyLength)
    else if |keyToWrap| == 0 || |keyToWrap| > 1024 then Err(KeyToWrapLength)
    else if nonce.None? then Err(NonceFailed)
    else Ok(nonce.value + a.seal(wrappingKey, nonce.value, keyToWrap))
  }

  function Unwrap(a: Aead, wrappingKey: seq<Byte>, wrapped: seq<Byte>): Result<seq<Byte>, CryptoError> {
    if |wrappingKey| != KEY_SIZE then Err(WrappingKeyLength)
    else if |wrapped| < IV_SIZE + TAG_SIZE then Err(WrappingKeyShort)
    else
      var p := a.open(wrappingKey, wrapped[..IV_SIZE], wrapped[IV_SIZE..]);
      if p.None? then Err(UnwrapFailed) else Ok(p.value)
  }

  function ToBytes(e: Encrypted): seq<Byte> {
    e.iv + e.ciphertext + e.tag
  }

  function FromBytes(data: seq<Byte>): Result<Encrypted, CryptoError> {
    if |data| < IV_SIZE + TAG_SIZE then Err(InvalidLength)
    else Ok(Encrypted(data[..IV_SIZE], data[IV_SIZE..|data| - TAG_SIZE], data[|data| - TAG_SIZE..], ALGORITHM, ""))
  }

  // ----- round trips --------------------------------------------------------------------

  /** Decryption gives back exactly the non-empty plaintexts: an empty one is encrypted
      without complaint and then refused. */
  lemma DecryptInvertsEncryptExactly(a: Aead, key: seq<Byte>, plaintext: seq<Byte>, nonce: Nonce, keyId: string)
    requires IsGcm(a) && |key| == KEY_SIZE && nonce.Some?
    ensures var e := Encrypt(a, key, plaintext, nonce).value.(keyId := keyId);
            Decrypt(a, key, e) == if plaintext != [] then Ok(plaintext) else Err(AESInvalidKey)
  {
    var sealed := a.seal(key, nonce.value, plaintext);
    assert sealed[..|sealed| - TAG_SIZE] + sealed[|sealed| - TAG_SIZE..] == sealed;
  }

  /** A value is what its bytes parse to exactly if it has the lengths and algorithm the
      parser assumes and no key id. */
  lemma BytesParseBackExactly(e: Encrypted)
    ensures FromBytes(ToBytes(e)) == Ok(e) <==>
              |e.iv| == IV_SIZE && |e.tag| == TAG_SIZE && e.algorithm == ALGORITHM && e.keyId == ""
  {
    var data := ToBytes(e);
    if |e.iv| == IV_SIZE && |e.tag| == TAG_SIZE {
      assert data[..IV_SIZE] == e.iv && data[|data| - TAG_SIZE..] == e.tag;
      assert data[IV_SIZE..|data| - TAG_SIZE] == e.ciphertext;
    }
  }

  lemma ParsedBytesPrintBack(data: seq<Byte>)
    ensures FromBytes(data).Ok? <==> |data| >= IV_SIZE + TAG_SIZE
    ensures FromBytes(data).Ok? ==> ToBytes(FromBytes(data).value) == data
  {
  }

  /** Both sides use one format: what WrapKey produces is the bytes of what EncryptAESGCM
      produces, and each side opens what the other made. */
  lemma OneFormat(a: Aead, key: seq<Byte>, plaintext: seq<Byte>, nonce: Nonce)
    requires IsGcm(a) && |key| == KEY_SIZE && nonce.Some?
    ensures var bytes := ToBytes(Encrypt(a, key, plaintext, nonce).value);
            && (1 <= |plaintext| <= 1024 ==> Wrap(a, key, plaintext, nonce) == Ok(bytes))
            && Unwrap(a, key, bytes) == Ok(plaintext)
            && FromBytes(bytes) == Encrypt(a, key, plaintext, nonce)
            && (plaintext != [] ==> Decrypt(a, key, FromBytes(bytes).value) == Ok(plaintext))
  {
    var sealed := a.seal(key, nonce.value, plaintext);
    var e := Encrypt(a, key, plaintext, nonce).value;
    assert e.ciphertext + e.tag == sealed;
    assert ToBytes(e) == nonce.value + sealed;
    assert ToBytes(e)[..IV_SIZE] == nonce.value && ToBytes(e)[IV_SIZE..] == sealed;
    BytesParseBackExactly(e);
    DecryptInvertsEncryptExactly(a, key, plaintext, nonce, "");
  }

  /** The parts of an envelope: the drawn nonce is the IV, and ciphertext and tag are what the
      cipher made under it; it is valid exactly if there was something to encrypt. */
  lemma EncryptsUnderTheNonce(a: Aead, key: seq<Byte>, plaintext: seq<Byte>, nonce: Nonce)
    requires IsGcm(a)
    ensures var r := Encrypt(a, key, plaintext, nonce);
            && (r.Ok? <==> |key| == 32 && nonce.Some?)
            && (r == Err(InvalidAESKeySize) <==> |key| != 32)
            && (r == Err(NonceFailed) <==> |key| == 32 && nonce.None?)
            && (r.Ok? ==>
                  && r.value.iv == nonce.value && r.value.ciphertext + r.value.tag == a.seal(key, nonce.value, plaintext)
                  && |r.value.iv| == 12 && |r.value.tag| == 16 && |r.value.ciphertext| == |plaintext|
                  && r.value.algorithm == "AES-256-GCM" && r.value.keyId == "")
  {
  }

  /** When decrypting succeeds, and what each refusal means. */
  lemma DecryptsExactly(a: Aead, key: seq<Byte>, e: Encrypted, plaintext: seq<Byte>)
    requires IsGcm(a)
    ensures var r := Decrypt(a, key, e);
            var shaped := |e.iv| == 12 && |e.tag| == 16 && e.ciphertext != [] && e.algorithm == "AES-256-GCM";
            && (r == Ok(plaintext) <==> |key| == 32 && shaped && e.ciphertext + e.tag == a.seal(key, e.iv, plaintext))
            && (r == Err(InvalidAESKeySize) <==> |key| != 32)
            && (r == Err(AESInvalidKey) <==> |key| == 32 && !shaped)
  {
  }

  /** When wrapping succeeds, what leads the bytes, and that they open again. */
  lemma WrapsExactly(a: Aead, key: seq<Byte>, plaintext: seq<Byte>, nonce: Nonce)
    requires IsGcm(a)
    ensures var r := Wrap(a, key, plaintext, nonce);
            && (r.Ok? <==> |key| == 32 && 1 <= |plaintext| <= 1024 && nonce.Some?)
            && (r == Err(WrappingKeyLength) <==> |key| != 32)
            && (r == Err(KeyToWrapLength) <==> |key| == 32 && !(1 <= |plaintext| <= 1024))
            && (r.Ok? ==> r.value[..12] == nonce.value && |r.value| == 12 + |plaintext| + 16 && Unwrap(a, key, r.value) == Ok(plaintext))
  {
    if Wrap(a, key, plaintext, nonce).Ok? {
      OneFormat(a, key, plaintext, nonce);
    }
  }

  /** When unwrapping succeeds, and what each refusal means. */
  lemma UnwrapsExactly(a: Aead, key: seq<Byte>, wrapped: seq<Byte>, plaintext: seq<Byte>)
    requires IsGcm(a)
    ensures var r := Unwrap(a, key, wrapped);
            && (r == Ok(plaintext) <==> |key| == 32 && |wrapped| >= 28 && wrapped[12..] == a.seal(key, wrapped[..12], plaintext))
            && (r == Err(WrappingKeyLength) <==> |key| != 32)
            && (r == Err(WrappingKeyShort) <==> |key| == 32 && |wrapped| < 28)
  {
  }

  lemma UnwrapInvertsWrap(a: Aead, key: seq<Byte>, plaintext: seq<Byte>, nonce: Nonce)
    requires IsGcm(a) && Wrap(a, key, plaintext, nonce).Ok?
    ensures Unwrap(a, key, Wrap(a, key, plaintext, nonce).value) == Ok(plaintext)
  {
  }

  /** Nothing else opens: bytes that unwrap to `p` are what wrapping `p` with their own IV gives. */
  lemma OnlyWrappedBytesUnwrap(a: Aead, key: seq<Byte>, wrapped: seq<Byte>)
    requires IsGcm(a) && Unwrap(a, key, wrapped).Ok?
    ensures var p := Unwrap(a, key, wrapped).value;
            && |wrapped| == IV_SIZE + |p| + TAG_SIZE
            && (1 <= |p| <= 1024 ==> Wrap(a, key, p, Some(wrapped[..IV_SIZE])) == Ok(wrapped))
  {
    var p := Unwrap(a, key, wrapped).value;
    assert wrapped[IV_SIZE..] == a.seal(key, wrapped[..IV_SIZE], p);
    assert wrapped[..IV_SIZE] + wrapped[IV_SIZE..] == wrapped;
  }

  // ----- on buffers ------------------------------------------------------------------------

  datatype EncryptedRef = EncryptedRef(iv: Slice, ciphertext: Slice, tag: Slice, algorithm: string, keyId: string) {
    ghost predicate Ok() {
      iv.Ok() && ciphertext.Ok() && tag.Ok()
    }

    ghost function Value(): Encrypted
      requires Ok()
      reads iv.buf, ciphertext.buf, tag.buf
    {
      Encrypted(iv.Bytes(), ciphertext.Bytes(), tag.Bytes(), algorithm, keyId)
    }
  }

  method GenerateAES256Key(random: Option<seq<Byte>>) returns (r: Result<Slice, CryptoError>)
    requires random.Some? ==> |random.value| == KEY_SIZE
    ensures r == Err(NonceFailed) <==> random.None?
    ensures r.Ok? ==> r.value.Ok() && fresh(r.value.buf) && r.value.Bytes() == random.value && r.value.len == r.value.cap == r.value.buf.Length
    ensures r.Err? ==> r.error == NonceFailed
  {
    if random.None? {
      return Err(NonceFailed);
    }
    var key := Make(random.value, 0);
    return Ok(key);
  }

  /** Ciphertext and tag are two parts of the one buffer that Seal allocated. */
  method EncryptAESGCM(a: Aead, key: Slice, plaintext: Slice, nonce: Nonce) returns (r: Result<EncryptedRef, CryptoError>)
    requires IsGcm(a) && key.Ok() && plaintext.Ok()
    ensures r.Ok? ==> r.value.Ok() && fresh(r.value.iv.buf) && fresh(r.value.ciphertext.buf) && r.value.iv.buf != r.value.ciphertext.buf
    ensures r.Ok? ==> r.value.ciphertext.Adjoins(r.value.tag)
    ensures (if r.Ok? then Ok(r.value.Value()) else Err(r.error)) == Encrypt(a, key.Bytes(), plaintext.Bytes(), nonce)
  {
    if key.len != KEY_SIZE {
      return Err(InvalidAESKeySize);
    }
    if nonce.None? {
      return Err(NonceFailed);
    }
    var iv := Make(nonce.value, 0);
    var sealed := Make(a.seal(key.Bytes(), nonce.value, plaintext.Bytes()), 0);
    var tagStart := sealed.len - TAG_SIZE;
    var ciphertext, tag := sealed.Sub(0, tagStart), sealed.Sub(tagStart, sealed.len);
    SubBytes(sealed, 0, tagStart);
    SubBytes(sealed, tagStart, sealed.len);
    return Ok(EncryptedRef(iv, ciphertext, tag, ALGORITHM, ""));
  }

  /** The tag is appended to the ciphertext's slice, in place if there is room: what is then in
      the way is overwritten, the IV too if it lies there, before the cipher reads it. */
  method DecryptAESGCM(a: Aead, key: Slice, e: EncryptedRef, room: nat) returns (r: Result<Slice, CryptoError>)
    requires key.Ok() && e.Ok()
    modifies e.ciphertext.buf
    ensures var touched := key.len == KEY_SIZE && old(IsValid(e.Value())) && e.ciphertext.len + e.tag.len <= e.ciphertext.cap;
            e.ciphertext.buf[..] ==
              if touched then Overwritten(old(e.ciphertext.buf[..]), e.ciphertext.off + e.ciphertext.len, old(e.tag.Bytes()))
              else old(e.ciphertext.buf[..])
    ensures r.Ok? ==> r.value.Ok() && fresh(r.value.buf) && r.value.len == r.value.cap == r.value.buf.Length
    ensures (if r.Ok? then Ok(r.value.Bytes()) else Err(r.error)) == Decrypt(a, old(key.Bytes()), old(e.Value()).(iv := e.iv.Bytes()))
    ensures e.ciphertext.Bytes() == old(e.ciphertext.Bytes())
    // No caller sees a change when the tag follows the ciphertext in its own buffer, or when
    // the ciphertext's slice has no room.
    ensures e.ciphertext.Adjoins(e.tag) || e.ciphertext.len + e.tag.len > e.ciphertext.cap ==>
              && e.ciphertext.buf[..] == old(e.ciphertext.buf[..])
              && (if r.Ok? then Ok(r.value.Bytes()) else Err(r.error)) == Decrypt(a, old(key.Bytes()), old(e.Value()))
  {
    if key.len != KEY_SIZE {
      return Err(InvalidAESKeySize);
    }
    if !(e.iv.len == IV_SIZE && e.tag.len == TAG_SIZE && e.ciphertext.len > 0 && e.algorithm == ALGORITHM) {
      return Err(AESInvalidKey);
    }
    ghost var value := e.Value();
    assert IsValid(value);
    r := JoinAndOpen(a, key.Bytes(), e.iv, e.ciphertext, e.tag, room);
    assert IsValid(value.(iv := e.iv.Bytes()));
  }

  method JoinAndOpen(a: Aead, k: seq<Byte>, iv: Slice, ciphertext: Slice, tag: Slice, room: nat) returns (r: Result<Slice, CryptoError>)
    requires iv.Ok() && ciphertext.Ok() && tag.Ok()
    modifies ciphertext.buf
    ensures ciphertext.buf[..] ==
              if ciphertext.len + tag.len <= ciphertext.cap
              then Overwritten(old(ciphertext.buf[..]), ciphertext.off + ciphertext.len, old(tag.Bytes()))
              else old(ciphertext.buf[..])
    ensures r.Ok? ==> r.value.Ok() && fresh(r.value.buf) && r.value.len == r.value.cap == r.value.buf.Length
    ensures var p := a.open(k, iv.Bytes(), old(ciphertext.Bytes()) + old(tag.Bytes()));
            if p.Some? then r.Ok? && r.value.Bytes() == p.value else r == Err(DecryptFailed)
    ensures ciphertext.Bytes() == old(ciphertext.Bytes())
    ensures ciphertext.Adjoins(tag) || ciphertext.len + tag.len > ciphertext.cap ==>
              ciphertext.buf[..] == old(ciphertext.buf[..]) && iv.Bytes() == old(iv.Bytes())
  {
    if ciphertext.Adjoins(tag) {
      AppendingTheNeighbourIsHarmless(ciphertext, tag);
    }
    AWindow(iv);
    var joined := Append(ciphertext, tag, room);
    AWindow(iv);
    r := OpenJoined(a, k, iv, joined);
  }

  method OpenJoined(a: Aead, k: seq<Byte>, iv: Slice, joined: Slice) returns (r: Result<Slice, CryptoError>)
    requires iv.Ok() && joined.Ok()
    ensures r.Ok? ==> r.value.Ok() && fresh(r.value.buf) && r.value.len == r.value.cap == r.value.buf.Length
    ensures var p := a.open(k, iv.Bytes(), joined.Bytes());
            if p.Some? then r.Ok? && r.value.Bytes() == p.value else r == Err(DecryptFailed)
  {
    var p := a.open(k, iv.Bytes(), joined.Bytes());
    if p.None? {
      return Err(DecryptFailed);
    }
    var plaintext := Make(p.value, 0);
    return Ok(plaintext);
  }
}
