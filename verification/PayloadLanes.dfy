/**
 Packing a snapshot payload into one storage lane and getting it back
 (app/snapshots.py): inline JSON, a compressed blob, an external object, or an
 encrypted blob under an account key.
 */
module PayloadLanes {
  import opened Common
  import opened WrappedKey

  /** A JSON document. */
  type Payload(==, !new)

  /** JSON, zstd, SHA-256, AES-GCM and the two key derivations. */
  datatype Codec = Codec(
    canonical: Payload -> Bytes,
    parse: Bytes -> Option<Payload>,
    compress: Bytes -> Bytes,
    compressHigh: Bytes -> Bytes,
    decompress: Bytes -> Option<Bytes>,
    digest: Bytes -> Bytes,
    seal: (Bytes, Bytes, Bytes, Bytes) -> Bytes,
    unseal: (Bytes, Bytes, Bytes) -> Option<Bytes>,
    fromPassphrase: (string, Bytes) -> Option<Bytes>,
    fromMaster: (nat, Bytes) -> Bytes,
    accountAad: nat -> Bytes,
    snapshotAad: (Option<nat>, string) -> Bytes,
    legacyAad: Option<nat> -> Bytes)

  /** What the foreign libraries promise. `seal` takes plaintext, key, associated data and nonce. */
  ghost predicate Lawful(c: Codec) {
    && (forall p :: c.parse(c.canonical(p)) == Some(p))
    && (forall b :: c.decompress(c.compress(b)) == Some(b))
    && (forall b :: c.decompress(c.compressHigh(b)) == Some(b))
    && (forall a, b :: c.digest(a) == c.digest(b) ==> a == b)
    && (forall b, key, aad, nonce :: c.unseal(c.seal(b, key, aad, nonce), key, aad) == Some(b))
  }

  /** An account key row; a retired key still opens what it sealed. */
  datatype KeyRow = KeyRow(account: nat, wrapped: Bytes, passwordDerived: bool, retired: bool)

  /** The payload columns of a snapshot row. */
  datatype Lanes =
    Lanes(json: Option<Payload>, blob: Option<Bytes>, uri: Option<string>, zstd: bool, kid: Option<string>)

  predicate ExactlyOneLane(l: Lanes) {
    (if l.json.Some? then 1 else 0) + (if l.blob.Some? then 1 else 0) + (if l.uri.Some? then 1 else 0) == 1
  }

  datatype Limits = Limits(inlineMax: nat, blobMax: nat, external: bool)

  datatype Error =
    NotFound | TooLarge | NoLane | KeyGone | NeedPassphrase | BadPassphrase | BadTag | ObjectGone | Corrupt

  datatype Result<+T> = Ok(value: T) | Err(error: Error)

  // --------------------------------------------------------------- packing

  /** The unencrypted lanes; an external object is uploaded under the given name. */
  function PackPlain(c: Codec, limits: Limits, p: Payload, name: string): Result<(Lanes, map<string, Bytes>)> {
    var raw := c.canonical(p);
    if |raw| <= limits.inlineMax then Ok((Lanes(Some(p), None, None, false, None), map[]))
    else
      var small := c.compress(raw);
      if |small| <= limits.blobMax then Ok((Lanes(None, Some(small), None, true, None), map[]))
      else if limits.external then Ok((Lanes(None, None, Some(name), true, None), map[name := small]))
      else Err(TooLarge)
  }

  /** The data key of a row, for whoever holds the credential. */
  function Unwrap(c: Codec, row: KeyRow, passphrase: Option<string>): Result<Bytes> {
    var (wrapped, salt) := Unpack(row.wrapped);
    if row.passwordDerived then
      if passphrase.None? || passphrase.value == "" then Err(NeedPassphrase)
      else
        match c.fromPassphrase(passphrase.value, salt)
        case None => Err(BadPassphrase)
        case Some(kek) => FromTag(c.unseal(wrapped, kek, c.accountAad(row.account)))
    else
      FromTag(c.unseal(wrapped, c.fromMaster(row.account, salt), c.accountAad(row.account)))
  }

  function FromTag(plain: Option<Bytes>): Result<Bytes> {
    if plain.Some? then Ok(plain.value) else Err(BadTag)
  }

  /** Random material a new key needs. */
  datatype Fresh = Fresh(kid: string, dek: Bytes, salt: Bytes, wrapNonce: Bytes)

  const MIN_PASSPHRASE_CHARS := 12

  /** A new key row, wrapped under the passphrase or under the master key. */
  function Mint(c: Codec, account: nat, passphrase: Option<string>, random: Fresh): Result<KeyRow> {
    var kek := if passphrase.None? then Some(c.fromMaster(account, random.salt))
               else if |passphrase.value| < MIN_PASSPHRASE_CHARS then None
               else c.fromPassphrase(passphrase.value, random.salt);
    if kek.None? then Err(BadPassphrase)
    else
      var packed := Pack(c.seal(random.dek, kek.value, c.accountAad(account), random.wrapNonce), random.salt);
      if packed.None? then Err(Corrupt) else Ok(KeyRow(account, packed.value, passphrase.Some?, false))
  }

  /** A key that has just been minted opens for the same credential. */
  lemma MintedKeyUnwraps(c: Codec, account: nat, passphrase: Option<string>, random: Fresh)
    requires Lawful(c) && Mint(c, account, passphrase, random).Ok?
    ensures Unwrap(c, Mint(c, account, passphrase, random).value, passphrase) == Ok(random.dek)
  {
    var kek := if passphrase.None? then Some(c.fromMaster(account, random.salt))
               else c.fromPassphrase(passphrase.value, random.salt);
    PackRoundTrip(c.seal(random.dek, kek.value, c.accountAad(account), random.wrapNonce), random.salt);
  }

  /** The encrypted lane: compressed, then sealed under the key's data key and pinned to account and key. */
  function PackSealed(c: Codec, row: KeyRow, kid: string, account: nat, p: Payload,
                      passphrase: Option<string>, nonce: Bytes): Result<Lanes>
  {
    match Unwrap(c, row, passphrase)
    case Err(e) => Err(e)
    case Ok(dek) =>
      var sealed := c.seal(c.compressHigh(c.canonical(p)), dek, c.snapshotAad(Some(account), kid), nonce);
      Ok(Lanes(None, Some(sealed), None, true, Some(kid)))
  }

  // ------------------------------------------------------------- unpacking

  function Decrypt(c: Codec, keys: map<string, KeyRow>, kid: string, account: Option<nat>, sealed: Bytes,
                   passphrase: Option<string>): Result<Bytes>
  {
    if kid !in keys then Err(KeyGone)
    else
      match Unwrap(c, keys[kid], passphrase)
      case Err(e) => Err(e)
      case Ok(dek) =>
        match c.unseal(sealed, dek, c.snapshotAad(account, kid))
        case Some(plain) => Ok(plain)
        case None => FromTag(c.unseal(sealed, dek, c.legacyAad(account)))
  }

  function Read(c: Codec, keys: map<string, KeyRow>, objects: map<string, Bytes>, l: Lanes, account: Option<nat>,
                passphrase: Option<string>): Result<Payload>
  {
    if l.json.Some? then Ok(l.json.value)
    else if l.blob.None? && l.uri.None? then Err(NoLane)
    else if l.blob.None? && l.uri.value !in objects then Err(ObjectGone)
    else
      var raw := if l.blob.Some? then l.blob.value else objects[l.uri.value];
      var plain := if l.kid.Some? && l.kid.value != "" then Decrypt(c, keys, l.kid.value, account, raw, passphrase)
                   else Ok(raw);
      match plain
      case Err(e) => Err(e)
      case Ok(bytes) =>
        var text := if l.zstd then c.decompress(bytes) else Some(bytes);
        if text.None? then Err(Corrupt)
        else
          var doc := c.parse(text.value);
          if doc.None? then Err(Corrupt) else Ok(doc.value)
  }

  // ------------------------------------------------------- which lane, which error

  /** The lane follows from the two thresholds, and only what no lane takes is refused. */
  lemma LaneFollowsTheSize(c: Codec, limits: Limits, p: Payload, name: string)
    ensures
      var raw := c.canonical(p);
      var small, r := c.compress(raw), PackPlain(c, limits, p, name);
      && (r.Err? <==> |raw| > limits.inlineMax && |small| > limits.blobMax && !limits.external)
      && (r.Err? ==> r.error == TooLarge)
      && (r.Ok? ==>
            var (lanes, upload) := r.value;
            && (lanes.json.Some? <==> |raw| <= limits.inlineMax)
            && (lanes.json.Some? ==> lanes.json == Some(p) && !lanes.zstd)
            && (lanes.blob.Some? <==> |raw| > limits.inlineMax && |small| <= limits.blobMax)
            && (lanes.blob.Some? ==> lanes.blob == Some(small) && lanes.zstd)
            && (lanes.uri.Some? <==> |raw| > limits.inlineMax && |small| > limits.blobMax)
            && (lanes.uri.Some? ==> lanes.uri == Some(name) && lanes.zstd)
            && upload == if lanes.uri.Some? then map[name := small] else map[])
  {
  }

  /** A new passphrase must have twelve characters, whatever the derivation would accept. */
  lemma ShortPassphraseMintsNothing(c: Codec, account: nat, passphrase: string, random: Fresh)
    requires |passphrase| < 12
    ensures Mint(c, account, Some(passphrase), random).Err?
  {
  }

  /** A blob sealed before keys were pinned still opens: the older associated data is tried second. */
  lemma OlderSealsOpen(c: Codec, keys: map<string, KeyRow>, kid: string, account: Option<nat>, sealed: Bytes,
                       passphrase: Option<string>, dek: Bytes, plain: Bytes)
    requires kid in keys && Unwrap(c, keys[kid], passphrase) == Ok(dek)
    requires c.unseal(sealed, dek, c.snapshotAad(account, kid)).None?
    requires c.unseal(sealed, dek, c.legacyAad(account)) == Some(plain)
    ensures Decrypt(c, keys, kid, account, sealed, passphrase) == Ok(plain)
  {
  }

  /** What keeps a row from being read, in the order it is found out. */
  lemma ReadErrors(c: Codec, keys: map<string, KeyRow>, objects: map<string, Bytes>, l: Lanes, account: Option<nat>,
                   passphrase: Option<string>)
    requires l.json.None?
    ensures
      var r := Read(c, keys, objects, l, account, passphrase);
      var sealed := l.kid.Some? && l.kid.value != "";
      && (l.blob.None? && l.uri.None? ==> r == Err(NoLane))
      && (l.blob.None? && l.uri.Some? && l.uri.value !in objects ==> r == Err(ObjectGone))
      && (l.blob.Some? && sealed && l.kid.value !in keys ==> r == Err(KeyGone))
      && (l.blob.Some? && sealed && l.kid.value in keys && keys[l.kid.value].passwordDerived ==>
            passphrase.None? || passphrase.value == "" ==> r == Err(NeedPassphrase))
  {
  }

  // ------------------------------------------------------------ round trips

  /** For every payload and all limits, a plain row fills one lane and gives its payload back to anyone. */
  lemma PlainRoundTrip(c: Codec, limits: Limits, p: Payload, name: string, keys: map<string, KeyRow>,
                       objects: map<string, Bytes>, account: Option<nat>, passphrase: Option<string>)
    requires Lawful(c)
    requires PackPlain(c, limits, p, name).Ok?
    requires
      var (lanes, upload) := PackPlain(c, limits, p, name).value;
      forall u :: u in upload ==> u in objects && objects[u] == upload[u]
    ensures
      var (lanes, upload) := PackPlain(c, limits, p, name).value;
      ExactlyOneLane(lanes) && lanes.kid == None && Read(c, keys, objects, lanes, account, passphrase) == Ok(p)
  {
    var raw := c.canonical(p);
    assert c.decompress(c.compress(raw)) == Some(raw);
    assert c.parse(raw) == Some(p);
  }

  /** An encrypted row fills one lane and gives its payload back to the credential that wrote it. */
  lemma SealedRoundTrip(c: Codec, row: KeyRow, kid: string, account: nat, p: Payload, passphrase: Option<string>,
                        nonce: Bytes, keys: map<string, KeyRow>, objects: map<string, Bytes>)
    requires Lawful(c) && kid != "" && kid in keys && keys[kid] == row
    requires PackSealed(c, row, kid, account, p, passphrase, nonce).Ok?
    ensures
      var lanes := PackSealed(c, row, kid, account, p, passphrase, nonce).value;
      ExactlyOneLane(lanes) && Read(c, keys, objects, lanes, Some(account), passphrase) == Ok(p)
  {
    var raw := c.canonical(p);
    assert c.decompress(c.compressHigh(raw)) == Some(raw);
    assert c.parse(raw) == Some(p);
  }

  /** Reading depends only on the row's own key and object, so other rows' keys and objects may come and go. */
  lemma ReadIsLocal(c: Codec, keys: map<string, KeyRow>, keys': map<string, KeyRow>, objects: map<string, Bytes>,
                    objects': map<string, Bytes>, l: Lanes, account: Option<nat>, passphrase: Option<string>)
    requires l.kid.Some? && l.kid.value in keys ==> l.kid.value in keys' && keys'[l.kid.value] == keys[l.kid.value]
    requires l.uri.Some? && l.uri.value in objects ==>
               l.uri.value in objects' && objects'[l.uri.value] == objects[l.uri.value]
    ensures Read(c, keys, objects, l, account, passphrase).Ok? ==>
              Read(c, keys', objects', l, account, passphrase) == Read(c, keys, objects, l, account, passphrase)
  {
  }
}
