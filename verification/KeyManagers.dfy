// The master-key managers. Callers are given the manager's own key buffer, other buffers are
// zeroed around it, and the key has to stay what it was.
module KeyManagers {
  import opened Wrappers
  import opened GoSlices
  import opened AesGcm
  import opened KeyWrap

  // ----- re-wrapping, on values --------------------------------------------------------

  /** Which master key an id stands for, if any. */
  type Lookup = string -> Option<seq<Byte>>

  datatype KeyError = KeyNotFound | BadDataKey | BadWrapped | Failed(error: CryptoError)

  function Rewrap(a: Aead, keys: Lookup, oldId: string, newId: string, nonce: Nonce, wrapped: seq<Byte>): Result<seq<Byte>, KeyError> {
    if keys(oldId).None? then Err(KeyNotFound)
    else
      var p := Unwrap(a, keys(oldId).value, wrapped);
      if p.Err? then Err(Failed(p.error))
      else WrapFound(a, keys(newId), p.value, nonce)
  }

  function WrapFound(a: Aead, key: Option<seq<Byte>>, plaintext: seq<Byte>, nonce: Nonce): Result<seq<Byte>, KeyError> {
    if key.None? then Err(KeyNotFound)
    else
      var w := Wrap(a, key.value, plaintext, nonce);
      if w.Err? then Err(Failed(w.error)) else Ok(w.value)
  }

  datatype Version = Version(id: string, nonce: Nonce)

  /** Re-wrapped from `current` to the first version, from there to the second, and so on. */
  function RewrapAll(a: Aead, keys: Lookup, current: string, versions: seq<Version>, wrapped: seq<Byte>): Result<seq<Byte>, KeyError>
    decreases |versions|
  {
    if versions == [] then Ok(wrapped)
    else
      var w := Rewrap(a, keys, current, versions[0].id, versions[0].nonce, wrapped);
      if w.Err? then w else RewrapAll(a, keys, versions[0].id, versions[1..], w.value)
  }

  function LastId(current: string, versions: seq<Version>): string {
    if versions == [] then current else versions[|versions| - 1].id
  }

  /** After any number of re-wrappings the last version's key gives back the data key that was
      wrapped first; and the chain fails only at a version without a usable key or nonce. */
  lemma {:induction false} RewrappedKeysUnwrap(a: Aead, keys: Lookup, current: string, versions: seq<Version>,
                                               dataKey: seq<Byte>, wrapped: seq<Byte>)
    requires IsGcm(a) && keys(current).Some? && 1 <= |dataKey| <= 1024
    requires Unwrap(a, keys(current).value, wrapped) == Ok(dataKey)
    ensures var r := RewrapAll(a, keys, current, versions, wrapped);
            && (r.Ok? ==> keys(LastId(current, versions)).Some?
                          && Unwrap(a, keys(LastId(current, versions)).value, r.value) == Ok(dataKey)
                          && |r.value| == |wrapped|)
            && (r.Ok? <==> forall v :: v in versions ==> v.nonce.Some? && keys(v.id).Some? && |keys(v.id).value| == KEY_SIZE)
    decreases |versions|
  {
    OnlyWrappedBytesUnwrap(a, keys(current).value, wrapped);
    if versions != [] {
      var v := versions[0];
      assert versions == [v] + versions[1..];
      var w := Rewrap(a, keys, current, v.id, v.nonce, wrapped);
      if w.Ok? {
        UnwrapInvertsWrap(a, keys(v.id).value, dataKey, v.nonce);
        OnlyWrappedBytesUnwrap(a, keys(v.id).value, w.value);
        RewrappedKeysUnwrap(a, keys, v.id, versions[1..], dataKey, w.value);
      }
    }
  }

  // ----- the local manager ---------------------------------------------------------------

  ghost function Bytes(r: Result<Slice, KeyError>): Result<seq<Byte>, KeyError>
    requires r.Ok? ==> r.value.Ok()
    reads if r.Ok? then {r.value.buf} else {}
  {
    if r.Ok? then Ok(r.value.Bytes()) else Err(r.error)
  }

  /** The end of RewrapKey: the data key is zeroed on success and on failure. */
  method WrapAndZero(a: Aead, newKey: Slice, dataKey: Slice, nonce: Nonce) returns (w: Result<Slice, CryptoError>)
    requires IsGcm(a) && newKey.Ok() && dataKey.Ok() && newKey.buf != dataKey.buf
    modifies dataKey.buf
    ensures w.Ok? ==> w.value.Ok() && fresh(w.value.buf)
    ensures BytesOf(w) == Wrap(a, newKey.Bytes(), old(dataKey.Bytes()), nonce)
    ensures dataKey.Bytes() == Zeros(dataKey.len)
  {
    w := KeyWrap.WrapKey(a, newKey, dataKey, nonce);
    ZeroBytes(dataKey);
  }

  function WrapDataKey(a: Aead, keys: Lookup, id: string, dataKey: seq<Byte>, nonce: Nonce): Result<seq<Byte>, KeyError> {
    if keys(id).None? then Err(KeyNotFound)
    else if |dataKey| != KEY_SIZE then Err(BadDataKey)
    else
      var w := Wrap(a, keys(id).value, dataKey, nonce);
      if w.Err? then Err(Failed(w.error)) else Ok(w.value)
  }

  function UnwrapDataKey(a: Aead, keys: Lookup, id: string, wrapped: seq<Byte>): Result<seq<Byte>, KeyError> {
    if keys(id).None? then Err(KeyNotFound)
    else if |wrapped| < IV_SIZE + TAG_SIZE then Err(BadWrapped)
    else
      var p := Unwrap(a, keys(id).value, wrapped);
      if p.Err? then Err(Failed(p.error)) else Ok(p.value)
  }

  /** When a data key can be wrapped, and that the drawn nonce leads the wrapped bytes; and that
      unwrapping under the same id gives it back. */
  lemma WrapsDataKeyExactly(a: Aead, keys: Lookup, id: string, dataKey: seq<Byte>, nonce: Nonce)
    requires IsGcm(a)
    ensures var r := WrapDataKey(a, keys, id, dataKey, nonce);
            && (r.Ok? <==> keys(id).Some? && |keys(id).value| == 32 && |dataKey| == 32 && nonce.Some?)
            && (r.Ok? ==> |r.value| == 60 && r.value[..12] == nonce.value && UnwrapDataKey(a, keys, id, r.value) == Ok(dataKey))
            && (r == Err(KeyNotFound) <==> keys(id).None?)
            && (r == Err(BadDataKey) <==> keys(id).Some? && |dataKey| != 32)
  {
    if keys(id).Some? && |dataKey| == 32 {
      WrapsExactly(a, keys(id).value, dataKey, nonce);
    }
  }

  /** When a data key can be unwrapped, and what each refusal means. */
  lemma UnwrapsDataKeyExactly(a: Aead, keys: Lookup, id: string, wrapped: seq<Byte>, dataKey: seq<Byte>)
    requires IsGcm(a)
    ensures var r := UnwrapDataKey(a, keys, id, wrapped);
            && (r == Ok(dataKey) <==> keys(id).Some? && |wrapped| >= 28 && Unwrap(a, keys(id).value, wrapped) == Ok(dataKey))
            && (r == Err(KeyNotFound) <==> keys(id).None?)
            && (r == Err(BadWrapped) <==> keys(id).Some? && |wrapped| < 28)
  {
  }

  /** When re-wrapping succeeds; a missing new key shows only after the old one has opened. */
  lemma RewrapsExactly(a: Aead, keys: Lookup, oldId: string, newId: string, nonce: Nonce, wrapped: seq<Byte>)
    requires IsGcm(a)
    ensures var r := Rewrap(a, keys, oldId, newId, nonce, wrapped);
            var opens := keys(oldId).Some? && Unwrap(a, keys(oldId).value, wrapped).Ok?;
            && (r == Err(KeyNotFound) <==> keys(oldId).None? || (opens && keys(newId).None?))
            && (r.Ok? <==> opens && keys(newId).Some? && Wrap(a, keys(newId).value, Unwrap(a, keys(oldId).value, wrapped).value, nonce).Ok?)
            && (r.Ok? ==> Unwrap(a, keys(newId).value, r.value) == Unwrap(a, keys(oldId).value, wrapped) && r.value[..12] == nonce.value)
  {
    if keys(oldId).Some? && Unwrap(a, keys(oldId).value, wrapped).Ok? && keys(newId).Some? {
      WrapsExactly(a, keys(newId).value, Unwrap(a, keys(oldId).value, wrapped).value, nonce);
    }
  }

  class LocalAESKeyManager {
    const a: Aead
    const masterKey: array<Byte>
    const keyId: string

    constructor (a: Aead, masterKey: array<Byte>, keyId: string)
      ensures this.a == a && this.masterKey == masterKey && this.keyId == keyId
    {
      this.a, this.masterKey, this.keyId := a, masterKey, keyId;
    }

    /** Every id stands for the one master key. */
    ghost function Keys(): Lookup
      reads masterKey
    {
      var key := masterKey[..];
      (id: string) => Some(key)
    }

    /** The master key itself, not a copy. */
    method GetKey(id: string) returns (k: Slice)
      ensures k == Slice(masterKey, 0, masterKey.Length, masterKey.Length)
      ensures k.Ok() && k.Bytes() == masterKey[..]
    {
      k := Slice(masterKey, 0, masterKey.Length, masterKey.Length);
    }

    method WrapKey(id: string, dataKey: Slice, nonce: Nonce) returns (r: Result<Slice, KeyError>)
      requires IsGcm(a) && dataKey.Ok()
      ensures r.Ok? ==> r.value.Ok() && fresh(r.value.buf)
      ensures Bytes(r) == WrapDataKey(a, Keys(), id, dataKey.Bytes(), nonce)
    {
      var master := GetKey(id);
      if dataKey.len != KEY_SIZE {
        return Err(BadDataKey);
      }
      var w := KeyWrap.WrapKey(a, master, dataKey, nonce);
      return if w.Err? then Err(Failed(w.error)) else Ok(w.value);
    }

    method UnwrapKey(id: string, wrapped: Slice) returns (r: Result<Slice, KeyError>)
      requires wrapped.Ok()
      ensures r.Ok? ==> r.value.Ok() && fresh(r.value.buf)
      ensures Bytes(r) == UnwrapDataKey(a, Keys(), id, wrapped.Bytes())
    {
      var master := GetKey(id);
      if wrapped.len < IV_SIZE + TAG_SIZE {
        return Err(BadWrapped);
      }
      var p := KeyWrap.UnwrapKey(a, master, wrapped);
      return if p.Err? then Err(Failed(p.error)) else Ok(p.value);
    }

    method EncryptWithKey(key: Slice, plaintext: Slice, nonce: Nonce) returns (r: Result<EncryptedRef, CryptoError>)
      requires IsGcm(a) && key.Ok() && plaintext.Ok()
      ensures r.Ok? ==> r.value.Ok() && fresh(r.value.iv.buf) && fresh(r.value.ciphertext.buf) && r.value.iv.buf != r.value.ciphertext.buf
      ensures r.Ok? ==> r.value.ciphertext.Adjoins(r.value.tag)
      ensures r.Ok? <==> Encrypt(a, key.Bytes(), plaintext.Bytes(), nonce).Ok?
      ensures r.Ok? ==> r.value.Value() == Encrypt(a, key.Bytes(), plaintext.Bytes(), nonce).value.(keyId := keyId)
    {
      if key.len != KEY_SIZE {
        return Err(InvalidAESKeySize);
      }
      r := EncryptAESGCM(a, key, plaintext, nonce);
      if r.Ok? {
        ghost var before := r.value.Value();
        r := Ok(r.value.(keyId := keyId));
        assert r.value.Value() == before.(keyId := keyId);
      }
    }

    method DecryptWithKey(key: Slice, e: EncryptedRef, room: nat) returns (r: Result<Slice, CryptoError>)
      requires key.Ok() && e.Ok()
      modifies e.ciphertext.buf
      ensures r.Ok? ==> r.value.Ok() && fresh(r.value.buf)
      ensures BytesOf(r) == Decrypt(a, old(key.Bytes()), old(e.Value()).(iv := e.iv.Bytes()))
      ensures e.ciphertext.Bytes() == old(e.ciphertext.Bytes())
      ensures e.ciphertext.Adjoins(e.tag) || e.iv.buf != e.ciphertext.buf ==>
                BytesOf(r) == Decrypt(a, old(key.Bytes()), old(e.Value()))
    {
      if key.len != KEY_SIZE {
        return Err(InvalidAESKeySize);
      }
      r := DecryptAESGCM(a, key, e, room);
      assert e.iv.buf != e.ciphertext.buf ==> e.iv.Bytes() == old(e.iv.Bytes());
    }

    /** The intermediate data key is a buffer of its own: zeroing it on every path leaves the
        result, the input and the master key alone. */
    method RewrapKey(oldId: string, newId: string, wrapped: Slice, nonce: Nonce) returns (r: Result<Slice, KeyError>)
      requires IsGcm(a) && wrapped.Ok()
      ensures r.Ok? ==> r.value.Ok() && fresh(r.value.buf)
      ensures Bytes(r) == Rewrap(a, Keys(), oldId, newId, nonce, wrapped.Bytes())
    {
      var oldKey := GetKey(oldId);
      var p := KeyWrap.UnwrapKey(a, oldKey, wrapped);
      if p.Err? {
        return Err(Failed(p.error));
      }
      var newKey := GetKey(newId);
      var w := WrapAndZero(a, newKey, p.value, nonce);
      return if w.Err? then Err(Failed(w.error)) else Ok(w.value);
    }
  }

  // ----- the Kubernetes manager ------------------------------------------------------------

  datatype K8sConfig = K8sConfig(keyId: string, masterKeyKey: string, oldMasterKeyKey: string)

  /** Logical key ids are mapped to fields of the Secret. */
  function FieldOf(config: K8sConfig, id: string): string {
    if id == config.keyId then config.masterKeyKey
    else if id == "old-master-key" && config.oldMasterKeyKey != "" then config.oldMasterKeyKey
    else id
  }

  /** What an uncached lookup gives: the field, decoded if it is base64, of 32 bytes. */
  function Resolve(config: K8sConfig, decode: seq<Byte> -> Option<seq<Byte>>, secret: map<string, seq<Byte>>, id: string)
    : Option<seq<Byte>>
  {
    var field := FieldOf(config, id);
    if field !in secret then None
    else
      var decoded := decode(secret[field]);
      var key := if decoded.Some? then decoded.value else secret[field];
      if |key| == KEY_SIZE then Some(key) else None
  }

  /** A field of the Secret gives `key`: the decoded bytes if they decode, else the raw ones, and
      in either case 32 of them. */
  ghost predicate Gives(decode: seq<Byte> -> Option<seq<Byte>>, secret: map<string, seq<Byte>>, field: string, key: seq<Byte>) {
    && field in secret && |key| == 32
    && (decode(secret[field]) == Some(key) || (decode(secret[field]) == None && secret[field] == key))
  }

  /** Which field an id stands for: the configured id for the current master key, the fixed
      old id for the previous one if there is such a field, any other id for itself. */
  lemma ResolvesExactly(config: K8sConfig, decode: seq<Byte> -> Option<seq<Byte>>, secret: map<string, seq<Byte>>, id: string)
    ensures forall key ::
              && (Resolve(config, decode, secret, config.keyId) == Some(key) <==> Gives(decode, secret, config.masterKeyKey, key))
              && (config.keyId != "old-master-key" && config.oldMasterKeyKey != "" ==>
                    (Resolve(config, decode, secret, "old-master-key") == Some(key) <==> Gives(decode, secret, config.oldMasterKeyKey, key)))
              && (id != config.keyId && (id != "old-master-key" || config.oldMasterKeyKey == "") ==>
                    (Resolve(config, decode, secret, id) == Some(key) <==> Gives(decode, secret, id, key)))
  {
  }

  /** Re-wrapping from the old id to the configured one: what opened under the previous master
      key opens under the bytes of the current one's field, to the same data key. */
  lemma RewrapMovesToTheCurrentKey(a: Aead, config: K8sConfig, decode: seq<Byte> -> Option<seq<Byte>>, secret: map<string, seq<Byte>>,
                                   wrapped: seq<Byte>, nonce: Nonce, oldKey: seq<Byte>, newKey: seq<Byte>)
    requires IsGcm(a) && config.keyId != "old-master-key" && config.oldMasterKeyKey != ""
    requires Gives(decode, secret, config.oldMasterKeyKey, oldKey) && Gives(decode, secret, config.masterKeyKey, newKey)
    ensures var r := Rewrap(a, id => Resolve(config, decode, secret, id), "old-master-key", config.keyId, nonce, wrapped);
            var opened' := Unwrap(a, oldKey, wrapped);
            && (r.Ok? <==> opened'.Ok? && 1 <= |opened'.value| <= 1024 && nonce.Some?)
            && (r.Ok? ==> Unwrap(a, newKey, r.value) == opened')
  {
    ResolvesExactly(config, decode, secret, "");
    if Unwrap(a, oldKey, wrapped).Ok? && Wrap(a, newKey, Unwrap(a, oldKey, wrapped).value, nonce).Ok? {
      UnwrapInvertsWrap(a, newKey, Unwrap(a, oldKey, wrapped).value, nonce);
    }
  }

  class K8sAESKeyManager {
    const a: Aead
    const config: K8sConfig
    const decode: seq<Byte> -> Option<seq<Byte>>
    const secret: map<string, seq<Byte>>
    var keyCache: map<string, array<Byte>>

    /** Every cached buffer still holds what its id resolves to. */
    ghost predicate Valid()
      reads this, keyCache.Values
    {
      forall id :: id in keyCache ==> Resolve(config, decode, secret, id) == Some(keyCache[id][..])
    }

    ghost function Keys(): Lookup {
      (id: string) => Resolve(config, decode, secret, id)
    }

    /** What a call finds: everything if the Secret can be read, else what is cached. */
    ghost function Available(reachable: bool): Lookup
      reads this
    {
      var cached := keyCache.Keys;
      (id: string) => if reachable || id in cached then Resolve(config, decode, secret, id) else None
    }

    constructor (a: Aead, config: K8sConfig, decode: seq<Byte> -> Option<seq<Byte>>, secret: map<string, seq<Byte>>)
      ensures Valid() && keyCache == map[]
      ensures this.a == a && this.config == config && this.decode == decode && this.secret == secret
    {
      this.a, this.config, this.decode, this.secret := a, config, decode, secret;
      keyCache := map[];
    }

    /** The key an uncached lookup would give, as the cached buffer itself; an error only when
        there is no such key, or the id is not cached and the Secret cannot be read. */
    method GetKey(id: string, reachable: bool) returns (r: Result<Slice, KeyError>)
      requires Valid()
      modifies this`keyCache
      ensures Valid() && (forall i :: i in old(keyCache) ==> i in keyCache && keyCache[i] == old(keyCache)[i])
      ensures forall i :: i in keyCache ==> i == id || i in old(keyCache)
      ensures forall i :: i in keyCache && i !in old(keyCache) ==> fresh(keyCache[i])
      ensures r.Ok? <==> Keys()(id).Some? && (reachable || id in old(keyCache))
      ensures r.Ok? ==> id in keyCache && r.value == Slice(keyCache[id], 0, KEY_SIZE, KEY_SIZE)
      ensures r.Ok? ==> r.value.Ok() && r.value.Bytes() == Keys()(id).value
      ensures r.Err? ==> r.error == KeyNotFound && keyCache == old(keyCache)
    {
      if id in keyCache {
        assert keyCache[id].Length == |keyCache[id][..]| == KEY_SIZE;
        return Ok(Slice(keyCache[id], 0, KEY_SIZE, KEY_SIZE));
      }
      var field := id;
      if id == config.keyId {
        field := config.masterKeyKey;
      } else if id == "old-master-key" && config.oldMasterKeyKey != "" {
        field := config.oldMasterKeyKey;
      }
      if !reachable {
        return Err(KeyNotFound);
      }
      if field !in secret {
        return Err(KeyNotFound);
      }
      var decoded := decode(secret[field]);
      var data := if decoded.Some? then decoded.value else secret[field];
      if |data| != KEY_SIZE {
        return Err(KeyNotFound);
      }
      var key := Make(data, 0);
      assert key.buf[..] == key.Bytes();
      keyCache := keyCache[id := key.buf];
      return Ok(key);
    }

    method WrapKey(id: string, dataKey: Slice, nonce: Nonce, reachable: bool) returns (r: Result<Slice, KeyError>)
      requires Valid() && IsGcm(a) && dataKey.Ok()
      modifies this`keyCache
      ensures Valid()
      ensures r.Ok? ==> r.value.Ok() && fresh(r.value.buf) && r.value.buf !in keyCache.Values
      ensures Bytes(r) == WrapDataKey(a, old(Available(reachable)), id, dataKey.Bytes(), nonce)
    {
      var master := GetKey(id, reachable);
      if master.Err? {
        return Err(KeyNotFound);
      }
      if dataKey.len != KEY_SIZE {
        return Err(BadDataKey);
      }
      var w := KeyWrap.WrapKey(a, master.value, dataKey, nonce);
      return if w.Err? then Err(Failed(w.error)) else Ok(w.value);
    }

    method UnwrapKey(id: string, wrapped: Slice, reachable: bool) returns (r: Result<Slice, KeyError>)
      requires Valid() && wrapped.Ok()
      modifies this`keyCache
      ensures Valid()
      ensures r.Ok? ==> r.value.Ok() && fresh(r.value.buf) && r.value.buf !in keyCache.Values
      ensures Bytes(r) == UnwrapDataKey(a, old(Available(reachable)), id, wrapped.Bytes())
    {
      var master := GetKey(id, reachable);
      if master.Err? {
        return Err(KeyNotFound);
      }
      if wrapped.len < IV_SIZE + TAG_SIZE {
        return Err(BadWrapped);
      }
      var p := KeyWrap.UnwrapKey(a, master.value, wrapped);
      return if p.Err? then Err(Failed(p.error)) else Ok(p.value);
    }

    /** The first half of RewrapKey: the data key in a buffer of its own. */
    method Recover(oldId: string, wrapped: Slice, reachable: bool) returns (r: Result<Slice, KeyError>)
      requires Valid() && wrapped.Ok()
      modifies this`keyCache
      ensures Valid()
      ensures r.Ok? ==> r.value.Ok() && fresh(r.value.buf) && r.value.buf !in keyCache.Values
      ensures forall id :: Available(reachable)(id) == old(Available(reachable))(id)
      ensures match old(Available(reachable))(oldId)
              case None => r == Err(KeyNotFound)
              case Some(key) =>
                match Unwrap(a, key, wrapped.Bytes())
                case Ok(p) => Bytes(r) == Ok(p)
                case Err(e) => r == Err(Failed(e))
    {
      var oldKey := GetKey(oldId, reachable);
      if oldKey.Err? {
        return Err(KeyNotFound);
      }
      var p := KeyWrap.UnwrapKey(a, oldKey.value, wrapped);
      return if p.Err? then Err(Failed(p.error)) else Ok(p.value);
    }

    /** The second half: the data key ends as zeros on every path. */
    method WrapAgain(newId: string, dataKey: Slice, nonce: Nonce, reachable: bool) returns (r: Result<Slice, KeyError>)
      requires Valid() && IsGcm(a) && dataKey.Ok() && dataKey.buf !in keyCache.Values
      modifies this`keyCache, dataKey.buf
      ensures Valid() && dataKey.Bytes() == Zeros(dataKey.len)
      ensures r.Ok? ==> r.value.Ok() && fresh(r.value.buf) && r.value.buf !in keyCache.Values
      ensures Bytes(r) == WrapFound(a, old(Available(reachable))(newId), old(dataKey.Bytes()), nonce)
    {
      ghost var plain := dataKey.Bytes();
      var newKey := GetKey(newId, reachable);
      if newKey.Err? {
        ZeroBytes(dataKey);
        return Err(KeyNotFound);
      }
      assert dataKey.buf !in keyCache.Values && dataKey.Bytes() == plain;
      var w := WrapAndZero(a, newKey.value, dataKey, nonce);
      return if w.Err? then Err(Failed(w.error)) else Ok(w.value);
    }

    /** Zeroing the intermediate data key never reaches the cache: the buffer it lives in was
        allocated for it. */
    method RewrapKey(oldId: string, newId: string, wrapped: Slice, nonce: Nonce, reachable: bool) returns (r: Result<Slice, KeyError>)
      requires Valid() && IsGcm(a) && wrapped.Ok()
      modifies this`keyCache
      ensures Valid()
      ensures r.Ok? ==> r.value.Ok() && fresh(r.value.buf) && r.value.buf !in keyCache.Values
      ensures Bytes(r) == Rewrap(a, old(Available(reachable)), oldId, newId, nonce, wrapped.Bytes())
    {
      var p := Recover(oldId, wrapped, reachable);
      if p.Err? {
        return p;
      }
      r := WrapAgain(newId, p.value, nonce, reachable);
    }
  }

  /** The boundary of that guarantee: a caller that zeroes the key it was given zeroes the
      cached buffer, which the next cache hit hands out. */
  method ZeroTheReturnedKey(m: K8sAESKeyManager, id: string)
    requires m.Valid() && id in m.keyCache && m.Keys()(id) != Some(Zeros(KEY_SIZE))
    modifies m`keyCache, m.keyCache[id]
    ensures m.keyCache == old(m.keyCache) && m.keyCache[id][..] == Zeros(KEY_SIZE)
    ensures !m.Valid() && m.Keys()(id) != Some(m.keyCache[id][..])
  {
    var k := m.GetKey(id, false);
    ZeroBytes(k.value);
    assert m.keyCache[id][..] == k.value.Bytes();
  }
}
