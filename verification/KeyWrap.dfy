// WrapKey, UnwrapKey, ToBytes and NewEncryptedDataFromBytes on buffers: one buffer filled by
// successive appends, or cut into slices that still share it.
module KeyWrap {
  import opened Wrappers
  import opened GoSlices
  import opened AesGcm

  /** What a call that returns a fresh buffer says about the bytes in it. */
  ghost function BytesOf(r: Result<Slice, CryptoError>): Result<seq<Byte>, CryptoError>
    requires r.Ok? ==> r.value.Ok()
    reads if r.Ok? then {r.value.buf} else {}
  {
    if r.Ok? then Ok(r.value.Bytes()) else Err(r.error)
  }

  method WrapKey(a: Aead, wrappingKey: Slice, keyToWrap: Slice, nonce: Nonce) returns (r: Result<Slice, CryptoError>)
    requires IsGcm(a) && wrappingKey.Ok() && keyToWrap.Ok()
    ensures r.Ok? ==> r.value.Ok() && fresh(r.value.buf)
    ensures BytesOf(r) == Wrap(a, wrappingKey.Bytes(), keyToWrap.Bytes(), nonce)
  {
    if wrappingKey.len != KEY_SIZE {
      return Err(WrappingKeyLength);
    }
    if keyToWrap.len == 0 || keyToWrap.len > 1024 {
      return Err(KeyToWrapLength);
    }
    if nonce.None? {
      return Err(NonceFailed);
    }
    var iv := Make(nonce.value, 0);
    var ciphertext := Make(a.seal(wrappingKey.Bytes(), nonce.value, keyToWrap.Bytes()), 0);
    var wrapped := Make([], iv.len + ciphertext.len);
    wrapped := Append(wrapped, iv, 0);
    wrapped := Append(wrapped, ciphertext, 0);
    assert [] + nonce.value + ciphertext.Bytes() == nonce.value + ciphertext.Bytes();
    return Ok(wrapped);
  }

  method UnwrapKey(a: Aead, wrappingKey: Slice, wrappedKey: Slice) returns (r: Result<Slice, CryptoError>)
    requires wrappingKey.Ok() && wrappedKey.Ok()
    ensures r.Ok? ==> r.value.Ok() && fresh(r.value.buf)
    ensures BytesOf(r) == Unwrap(a, wrappingKey.Bytes(), wrappedKey.Bytes())
  {
    if wrappingKey.len != KEY_SIZE {
      return Err(WrappingKeyLength);
    }
    if wrappedKey.len < IV_SIZE + TAG_SIZE {
      return Err(WrappingKeyShort);
    }
    var iv, ciphertext := wrappedKey.Sub(0, IV_SIZE), wrappedKey.Sub(IV_SIZE, wrappedKey.len);
    SubBytes(wrappedKey, 0, IV_SIZE);
    SubBytes(wrappedKey, IV_SIZE, wrappedKey.len);
    var p := a.open(wrappingKey.Bytes(), iv.Bytes(), ciphertext.Bytes());
    if p.None? {
      return Err(UnwrapFailed);
    }
    var plaintext := Make(p.value, 0);
    return Ok(plaintext);
  }

  method EncryptedToBytes(e: EncryptedRef) returns (r: Slice)
    requires e.Ok()
    ensures r.Ok() && fresh(r.buf) && r.Bytes() == ToBytes(e.Value())
  {
    r := Make([], e.iv.len + e.ciphertext.len + e.tag.len);
    r := Append(r, e.iv, 0);
    r := Append(r, e.ciphertext, 0);
    r := Append(r, e.tag, 0);
    assert [] + e.iv.Bytes() == e.iv.Bytes();
  }

  /** The three parts stay windows on the caller's data; ciphertext and tag adjoin. */
  method NewEncryptedDataFromBytes(data: Slice) returns (r: Result<EncryptedRef, CryptoError>)
    requires data.Ok()
    ensures r.Ok? ==> r.value.Ok() && r.value.iv.buf == r.value.ciphertext.buf == data.buf && r.value.ciphertext.Adjoins(r.value.tag)
    ensures (if r.Ok? then Ok(r.value.Value()) else Err(r.error)) == FromBytes(data.Bytes())
  {
    if data.len < IV_SIZE + TAG_SIZE {
      return Err(InvalidLength);
    }
    var iv := data.Sub(0, IV_SIZE);
    var tag := data.Sub(data.len - TAG_SIZE, data.len);
    var ciphertext := data.Sub(IV_SIZE, data.len - TAG_SIZE);
    SubBytes(data, 0, IV_SIZE);
    SubBytes(data, data.len - TAG_SIZE, data.len);
    SubBytes(data, IV_SIZE, data.len - TAG_SIZE);
    return Ok(EncryptedRef(iv, ciphertext, tag, ALGORITHM, ""));
  }

  /** Decrypting twice gives one answer twice, for a value built by either constructor. */
  method DecryptTwice(a: Aead, key: Slice, e: EncryptedRef, room: nat)
    returns (first: Result<Slice, CryptoError>, second: Result<Slice, CryptoError>)
    requires key.Ok() && e.Ok() && e.ciphertext.Adjoins(e.tag)
    modifies e.ciphertext.buf
    ensures e.ciphertext.buf[..] == old(e.ciphertext.buf[..])
    ensures (first.Ok? ==> first.value.Ok()) && (second.Ok? ==> second.value.Ok())
    ensures BytesOf(first) == BytesOf(second) == Decrypt(a, old(key.Bytes()), old(e.Value()))
  {
    AWindow(key);
    AWindow(e.iv);
    AWindow(e.ciphertext);
    AWindow(e.tag);
    first := DecryptAESGCM(a, key, e, room);
    AWindow(key);
    AWindow(e.iv);
    AWindow(e.ciphertext);
    AWindow(e.tag);
    second := DecryptAESGCM(a, key, e, room);
  }

  /** An IV that lies right behind the ciphertext, in its capacity, is replaced by the head of
      the tag before the cipher reads it: the value is opened under a wrong IV. */
  method DecryptWithIvBehind(a: Aead, key: Slice, e: EncryptedRef, room: nat) returns (r: Result<Slice, CryptoError>)
    requires key.Ok() && e.Ok() && IsValid(e.Value()) && e.ciphertext.len + TAG_SIZE <= e.ciphertext.cap
    requires e.iv.buf == e.ciphertext.buf && e.iv.off == e.ciphertext.off + e.ciphertext.len && e.tag.buf != e.ciphertext.buf
    modifies e.ciphertext.buf
    ensures r.Ok? ==> r.value.Ok()
    ensures BytesOf(r) == Decrypt(a, old(key.Bytes()), old(e.Value()).(iv := old(e.tag.Bytes())[..IV_SIZE]))
    ensures IsGcm(a) && r.Ok? ==>
              a.seal(old(key.Bytes()), old(e.tag.Bytes())[..IV_SIZE], r.value.Bytes()) == old(e.ciphertext.Bytes() + e.tag.Bytes())
  {
    ghost var before, at, tag := e.ciphertext.buf[..], e.ciphertext.off + e.ciphertext.len, e.tag.Bytes();
    r := DecryptAESGCM(a, key, e, room);
    if key.len == KEY_SIZE {
      AWindow(e.iv);
      HeadOverwritten(before, at, tag, IV_SIZE);
    }
  }

  lemma HeadOverwritten(b: seq<Byte>, at: nat, data: seq<Byte>, n: nat)
    requires n <= |data| && at + |data| <= |b|
    ensures Overwritten(b, at, data)[at..at + n] == data[..n]
  {
  }
}
