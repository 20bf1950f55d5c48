// The two places a key lives in: private and public objects inside PKCS#11 tokens,
// and rows of the key table. Every function below is one call on one of the two
// stores; a `faults` argument says which of the calls below it fail.
module KeyStores {
  import opened Wrappers

  datatype Algorithm = RSA | ECDSA | Ed25519 | UnknownAlgorithm(name: string) {
    predicate IsValid() { !UnknownAlgorithm? }
  }

  datatype Usage = Signing | Encryption | Both | UnknownUsage(name: string) {
    predicate IsValid() { !UnknownUsage? }
  }

  /** The columns of a key row that FindByIDAndTenant does not select. */
  datatype Profile = Profile(ownerType: string, ownerId: string, parentKeyId: Option<string>,
                             certLevel: int, alias: string, slotId: string, expiration: int)

  const BLANK_PROFILE := Profile("", "", None, 0, "", "", 0)

  datatype Key = Key(id: string, tenantId: string, name: string, algorithm: Algorithm, keySize: int,
                     purpose: Usage, publicKey: seq<bv8>, keyHandle: string, keyLabel: string,
                     version: int, isActive: bool, profile: Profile)

  predicate IsValidKeySize(algorithm: Algorithm, size: int) {
    match algorithm
    case RSA => size in {2048, 3072, 4096}
    case ECDSA => size in {256, 384, 521}
    case Ed25519 => size == 256
    case UnknownAlgorithm(_) => false
  }

  predicate Validate(k: Key) {
    k.name != "" && k.algorithm.IsValid() && IsValidKeySize(k.algorithm, k.keySize)
    && k.tenantId != "" && k.purpose.IsValid()
  }

  /** A key object is found by its label inside the token of one slot. */
  datatype Loc = Loc(slot: int, keyLabel: string)

  datatype Stores = Stores(priv: set<Loc>, pub: set<Loc>, rows: map<string, Key>)

  /** The key table's Save is either a plain INSERT (MySQL) or what its name suggests. */
  datatype SaveMode = Insert | Upsert

  /** What does not change during a run: each tenant's slot number and the kind of Save. */
  datatype Env = Env(slots: map<string, int>, mode: SaveMode)

  function RowLoc(env: Env, k: Key): Loc {
    Loc(if k.tenantId in env.slots then env.slots[k.tenantId] else -1, k.keyHandle)
  }

  /** The locations the key table claims to have a key object at. */
  function Recorded(env: Env, rows: map<string, Key>): set<Loc> {
    set id | id in rows :: RowLoc(env, rows[id])
  }

  // ----- the token ---------------------------------------------------------

  datatype GenerateFaults = GenerateFaults(noClient: bool, closed: bool, generate: bool, exporting: bool,
                                           destroyPub: bool, destroyPriv: bool)

  /** `stuck`: the export failed and so did one of the two destroy calls after it. */
  datatype Generated = Generated(stores: Stores, ok: bool, stuck: bool)

  /** SoftHSMv2 refuses Ed25519, and the template builders check the size. */
  predicate Supported(algorithm: Algorithm, size: int) {
    (algorithm.RSA? || algorithm.ECDSA?) && IsValidKeySize(algorithm, size)
  }

  function GenerateKeyPair(s: Stores, loc: Loc, algorithm: Algorithm, size: int, f: GenerateFaults): Generated {
    if f.noClient || loc.keyLabel == "" || f.closed || !Supported(algorithm, size) || f.generate then
      Generated(s, false, false)
    else if f.exporting then
      // Both objects exist by now; the results of the two destroy calls are ignored.
      Generated(s.(priv := if f.destroyPriv then s.priv + {loc} else s.priv,
                   pub := if f.destroyPub then s.pub + {loc} else s.pub), false, f.destroyPriv || f.destroyPub)
    else
      Generated(s.(priv := s.priv + {loc}, pub := s.pub + {loc}), true, false)
  }

  datatype DestroyFaults = DestroyFaults(noClient: bool, privSearch: bool, pubSearch: bool, closed: bool, destroy: bool)

  /** `ok` is what the caller is told; `fellBack` says that the public object was destroyed
      although a private one with that label existed. */
  datatype Destroyed = Destroyed(stores: Stores, ok: bool, fellBack: bool)

  function DestroyKey(s: Stores, loc: Loc, f: DestroyFaults): Destroyed {
    var privFound := !f.privSearch && loc in s.priv;
    var pubFound := !f.pubSearch && loc in s.pub;
    if f.noClient || !(privFound || pubFound) || f.closed || f.destroy then
      Destroyed(s, false, false)
    else if privFound then
      Destroyed(s.(priv := s.priv - {loc}), true, false)
    else
      Destroyed(s.(pub := s.pub - {loc}), true, loc in s.priv)
  }

  /** The token destroys an object: no call fails, and a search that works finds one. */
  predicate Destroys(s: Stores, loc: Loc, f: DestroyFaults) {
    !f.noClient && !f.closed && !f.destroy && ((!f.privSearch && loc in s.priv) || (!f.pubSearch && loc in s.pub))
  }

  /** No call inside this destroy request fails. */
  predicate Clean(f: DestroyFaults) {
    !f.noClient && !f.privSearch && !f.closed && !f.destroy
  }

  // ----- the key table -----------------------------------------------------

  function SaveRow(rows: map<string, Key>, k: Key, mode: SaveMode, fails: bool): Option<map<string, Key>> {
    if fails || (mode.Insert? && k.id in rows) then None else Some(rows[k.id := k])
  }

  /** The row as the finder returns it: unselected columns come back as zero values. */
  function Loaded(k: Key): Key { k.(profile := BLANK_PROFILE) }

  function FindRow(rows: map<string, Key>, id: string, tenantId: string, fails: bool): Option<Key> {
    if !fails && id in rows && rows[id].tenantId == tenantId then Some(Loaded(rows[id])) else None
  }

  function DeleteRow(rows: map<string, Key>, id: string, fails: bool): Option<map<string, Key>> {
    if fails || id !in rows then None else Some(rows - {id})
  }
}
