/**
 The versioned snapshot store (app/snapshots.py) as the backup endpoints and the
 sync push drive it (app/backups.py, app/api_sync.py): append and move HEAD,
 reuse an identical HEAD, restore by moving HEAD, delete.

 What the environment chooses (row ids, clocks, random bytes, object names, the
 key row a query returns) is a parameter of the step. A new row's id is only
 required to exceed every id in the table, so it may repeat the id of a deleted
 row.
 */
module SnapshotStore {
  import opened Common
  import opened WrappedKey
  import opened PayloadLanes

  datatype Kind = Auto | Manual | PreRestore | Import

  datatype Snap = Snap(device: string, account: Option<nat>, createdAt: Time, labelText: Option<string>, kind: Kind,
                       lanes: Lanes, checksum: Bytes, parent: Option<nat>)

  datatype Store = Store(snaps: map<nat, Snap>, heads: map<string, nat>, keys: map<string, KeyRow>,
                         objects: map<string, Bytes>)

  datatype Draft = Draft(device: string, account: Option<nat>, payload: Payload, kind: Kind, labelText: Option<string>,
                         encrypt: bool, passphrase: Option<string>)

  /**
   What the environment supplies to a create. `missed` tells that another request
   stored the active key between this one's lookup and its own insert: the insert
   then violates the unique index, and a second lookup finds the key.
   */
  datatype Env = Env(id: nat, now: Time, objectName: string, random: Fresh, nonce: Bytes, activeKey: Option<string>,
                     missed: bool)

  /** The key row the active-key query may return. */
  predicate IsActiveKey(row: KeyRow, account: nat, passphrase: Option<string>) {
    row.account == account && !row.retired && (row.passwordDerived <==> passphrase.Some?)
  }

  ghost predicate EnvOk(st: Store, d: Draft, env: Env) {
    && (forall i :: i in st.snaps ==> i < env.id)
    && env.objectName !in st.objects
    && env.random.kid !in st.keys && env.random.kid != ""
    && (env.activeKey.Some? ==> env.activeKey.value != "")
    && ActiveKeyOk(st.keys, d, env)
  }

  /** The lookup that matters finds an active key of the account, if there is one. */
  ghost predicate ActiveKeyOk(keys: map<string, KeyRow>, d: Draft, env: Env) {
    WantsEncryption(d) && d.account.Some? ==>
      if env.activeKey.Some? then
        env.activeKey.value in keys && IsActiveKey(keys[env.activeKey.value], d.account.value, d.passphrase)
      else
        forall kid :: kid in keys ==> !IsActiveKey(keys[kid], d.account.value, d.passphrase)
  }

  // ------------------------------------------------------------- operations

  function GetHead(st: Store, device: string): Option<nat> {
    if device in st.heads && st.heads[device] in st.snaps then Some(st.heads[device]) else None
  }

  predicate WantsEncryption(d: Draft) {
    d.encrypt || (d.passphrase.Some? && d.passphrase.value != "")
  }

  predicate ReusesHead(c: Codec, st: Store, d: Draft) {
    var head := GetHead(st, d.device);
    && head.Some? && st.snaps[head.value].checksum == c.digest(c.canonical(d.payload))
    && d.labelText.None? && !WantsEncryption(d)
  }

  /** Payload columns, key table and uploaded objects for a new row. */
  function Packed(c: Codec, limits: Limits, st: Store, d: Draft, env: Env)
    : Result<(Lanes, map<string, KeyRow>, map<string, Bytes>)>
  {
    if WantsEncryption(d) && d.account.Some? then
      var account := d.account.value;
      var minted := Mint(c, account, d.passphrase, env.random);
      if (env.activeKey.None? || env.missed) && minted.Err? then Err(minted.error)
      else
        var kid := if env.activeKey.Some? then env.activeKey.value else env.random.kid;
        var keys := if env.activeKey.Some? then st.keys else st.keys[kid := minted.value];
        if kid !in keys then Err(KeyGone)
        else
          match PackSealed(c, keys[kid], kid, account, d.payload, d.passphrase, env.nonce)
          case Err(e) => Err(e)
          case Ok(lanes) => Ok((lanes, keys, map[]))
    else
      match PackPlain(c, limits, d.payload, env.objectName)
      case Err(e) => Err(e)
      case Ok(packed) => Ok((packed.0, st.keys, packed.1))
  }

  /** Append and move HEAD, or keep the HEAD that already holds this payload. A failure rolls back. */
  function Create(c: Codec, limits: Limits, st: Store, d: Draft, env: Env): Result<(Store, nat)> {
    var head := GetHead(st, d.device);
    if ReusesHead(c, st, d) then Ok((st, head.value))
    else
      match Packed(c, limits, st, d, env)
      case Err(e) => Err(e)
      case Ok((lanes, keys, upload)) =>
        var checksum := c.digest(c.canonical(d.payload));
        var snap := Snap(d.device, d.account, env.now, d.labelText, d.kind, lanes, checksum, head);
        Ok((Store(st.snaps[env.id := snap], st.heads[d.device := env.id], keys, st.objects + upload), env.id))
  }

  /** Deleting rows sets the parent links that named them to NULL and drops the given objects. */
  function Remove(st: Store, doomed: set<nat>, objects: set<string>): Store {
    st.(snaps := map i | i in st.snaps && i !in doomed :: Orphaned(st.snaps[i], doomed),
        objects := st.objects - objects)
  }

  function Orphaned(s: Snap, doomed: set<nat>): Snap {
    if s.parent.Some? && s.parent.value in doomed then s.(parent := None) else s
  }

  predicate Owns(st: Store, device: string, account: nat, id: nat) {
    id in st.snaps && st.snaps[id].device == device && st.snaps[id].account == Some(account)
  }

  /** Deleting one row: not found, refused for the HEAD, or done. */
  datatype Deleted = Missing | IsHead | Gone(store: Store)

  function Delete(st: Store, device: string, account: nat, id: nat): Deleted {
    if !Owns(st, device, account, id) then Missing
    else if GetHead(st, device) == Some(id) then IsHead
    else Gone(Remove(st, {id}, {}))
  }

  /** The draft of the row that keeps what a restore displaces. */
  function KeepsakeDraft(device: string, account: nat, payload: Payload, labelText: string): Draft {
    Draft(device, Some(account), payload, PreRestore, Some(labelText), false, None)
  }

  /** Move HEAD to a prior row, after storing a copy of what it displaces. */
  function Restore(c: Codec, limits: Limits, st: Store, device: string, account: nat, target: nat, labelText: string,
                   env: Env): Result<Store>
  {
    if !Owns(st, device, account, target) then Err(NotFound)
    else
      var current := GetHead(st, device);
      if current.None? || current.value == target then Ok(st.(heads := st.heads[device := target]))
      else
        var snap := st.snaps[current.value];
        match Read(c, st.keys, st.objects, snap.lanes, snap.account, None)
        case Err(e) => Err(e)
        case Ok(payload) =>
          match Create(c, limits, st, KeepsakeDraft(device, account, payload, labelText), env)
          case Err(e) => Err(e)
          case Ok((st', _)) => Ok(st'.(heads := st'.heads[device := target]))
  }

  // -------------------------------------------------------------- invariants

  /** What was asked to be stored in a row, and with which passphrase. */
  datatype Written = Written(payload: Payload, passphrase: Option<string>)

  ghost predicate HeadOk(st: Store, device: string) {
    device in st.heads ==> st.heads[device] in st.snaps && st.snaps[st.heads[device]].device == device
  }

  /** A parent link names an older row of the same device. */
  ghost predicate ParentOk(st: Store, i: nat) {
    i in st.snaps && st.snaps[i].parent.Some? ==>
      var p := st.snaps[i].parent.value;
      p in st.snaps && p < i && st.snaps[p].device == st.snaps[i].device
  }

  /** A row still gives its writer the payload that was written into it. */
  ghost predicate ReadOk(c: Codec, st: Store, written: map<nat, Written>, i: nat) {
    i in st.snaps ==>
      var s := st.snaps[i];
      && i in written && ExactlyOneLane(s.lanes)
      && s.checksum == c.digest(c.canonical(written[i].payload))
      && Read(c, st.keys, st.objects, s.lanes, s.account, written[i].passphrase) == Ok(written[i].payload)
      && (s.lanes.uri.Some? ==> s.lanes.uri.value in st.objects)
  }

  /** No two rows share an external object. */
  ghost predicate ObjectsApart(st: Store, i: nat, j: nat) {
    i in st.snaps && j in st.snaps && i != j && st.snaps[i].lanes.uri.Some? ==>
      st.snaps[i].lanes.uri != st.snaps[j].lanes.uri
  }

  ghost predicate StoreOk(c: Codec, st: Store, written: map<nat, Written>) {
    && (forall d :: HeadOk(st, d))
    && (forall i :: ParentOk(st, i))
    && (forall i :: ReadOk(c, st, written, i))
    && (forall i, j :: ObjectsApart(st, i, j))
  }

  /** The history after a create: a reused HEAD was written before. */
  function Recorded(c: Codec, st: Store, written: map<nat, Written>, d: Draft, id: nat): map<nat, Written> {
    if ReusesHead(c, st, d) then written else written[id := Written(d.payload, d.passphrase)]
  }

  lemma NewRowReads(c: Codec, limits: Limits, st: Store, d: Draft, env: Env)
    requires Lawful(c) && EnvOk(st, d, env) && Packed(c, limits, st, d, env).Ok?
    ensures
      var (lanes, keys, upload) := Packed(c, limits, st, d, env).value;
      && ExactlyOneLane(lanes)
      && Read(c, keys, st.objects + upload, lanes, d.account, d.passphrase) == Ok(d.payload)
      && (lanes.uri.Some? ==> lanes.uri.value == env.objectName && env.objectName in upload)
      && (forall k :: k in st.keys ==> k in keys && keys[k] == st.keys[k])
      && (forall u :: u in upload ==> u == env.objectName)
  {
    var (lanes, keys, upload) := Packed(c, limits, st, d, env).value;
    if WantsEncryption(d) && d.account.Some? {
      var kid := if env.activeKey.Some? then env.activeKey.value else env.random.kid;
      SealedRoundTrip(c, keys[kid], kid, d.account.value, d.payload, d.passphrase, env.nonce,
                      keys, st.objects + upload);
    } else {
      PlainRoundTrip(c, limits, d.payload, env.objectName, keys, st.objects + upload, d.account, d.passphrase);
    }
  }

  // ----------------------------------------------- every operation keeps them

  /** The store with one more row, which becomes its device's HEAD. */
  function Appended(st: Store, id: nat, snap: Snap, keys: map<string, KeyRow>, upload: map<string, Bytes>): Store {
    Store(st.snaps[id := snap], st.heads[snap.device := id], keys, st.objects + upload)
  }

  lemma AppendKeepsLinks(st: Store, id: nat, snap: Snap, keys: map<string, KeyRow>, upload: map<string, Bytes>, i: nat)
    requires (forall j :: j in st.snaps ==> j < id) && snap.parent == GetHead(st, snap.device)
    requires HeadOk(st, snap.device) && ParentOk(st, i)
    ensures ParentOk(Appended(st, id, snap, keys, upload), i)
  {
  }

  lemma AppendKeepsReads(c: Codec, st: Store, written: map<nat, Written>, id: nat, snap: Snap, w: Written,
                         keys: map<string, KeyRow>, upload: map<string, Bytes>, i: nat)
    requires id !in st.snaps && i != id && ReadOk(c, st, written, i)
    requires forall k :: k in st.keys ==> k in keys && keys[k] == st.keys[k]
    requires forall u :: u in upload ==> u !in st.objects
    ensures ReadOk(c, Appended(st, id, snap, keys, upload), written[id := w], i)
  {
    if i in st.snaps {
      var s := st.snaps[i];
      ReadIsLocal(c, st.keys, keys, st.objects, st.objects + upload, s.lanes, s.account, written[i].passphrase);
    }
  }

  lemma AppendKeepsApart(c: Codec, st: Store, written: map<nat, Written>, id: nat, snap: Snap,
                         keys: map<string, KeyRow>, upload: map<string, Bytes>, i: nat, j: nat)
    requires id !in st.snaps && ReadOk(c, st, written, i) && ReadOk(c, st, written, j) && ObjectsApart(st, i, j)
    requires snap.lanes.uri.Some? ==> snap.lanes.uri.value !in st.objects
    ensures ObjectsApart(Appended(st, id, snap, keys, upload), i, j)
  {
  }

  /** Creating a row, or reusing the HEAD, keeps every invariant. */
  lemma CreateKeepsStore(c: Codec, limits: Limits, st: Store, written: map<nat, Written>, d: Draft, env: Env)
    requires Lawful(c) && StoreOk(c, st, written) && EnvOk(st, d, env) && Create(c, limits, st, d, env).Ok?
    ensures
      var (st', id) := Create(c, limits, st, d, env).value;
      StoreOk(c, st', Recorded(c, st, written, d, id))
  {
    if !ReusesHead(c, st, d) {
      NewRowReads(c, limits, st, d, env);
      var (lanes, keys, upload) := Packed(c, limits, st, d, env).value;
      var checksum := c.digest(c.canonical(d.payload));
      var snap := Snap(d.device, d.account, env.now, d.labelText, d.kind, lanes, checksum, GetHead(st, d.device));
      AppendKeepsStore(c, st, written, env.id, snap, Written(d.payload, d.passphrase), keys, upload);
    }
  }

  lemma AppendKeepsStore(c: Codec, st: Store, written: map<nat, Written>, id: nat, snap: Snap, w: Written,
                         keys: map<string, KeyRow>, upload: map<string, Bytes>)
    requires StoreOk(c, st, written)
    requires (forall j :: j in st.snaps ==> j < id) && snap.parent == GetHead(st, snap.device)
    requires forall k :: k in st.keys ==> k in keys && keys[k] == st.keys[k]
    requires forall u :: u in upload ==> u !in st.objects
    requires snap.lanes.uri.Some? ==> snap.lanes.uri.value in upload
    requires ExactlyOneLane(snap.lanes) && snap.checksum == c.digest(c.canonical(w.payload))
    requires Read(c, keys, st.objects + upload, snap.lanes, snap.account, w.passphrase) == Ok(w.payload)
    ensures StoreOk(c, Appended(st, id, snap, keys, upload), written[id := w])
  {
    var st', all := Appended(st, id, snap, keys, upload), written[id := w];
    forall d ensures HeadOk(st', d) {
      assert HeadOk(st, d);
    }
    forall i ensures ParentOk(st', i) {
      assert HeadOk(st, snap.device) && ParentOk(st, i);
      AppendKeepsLinks(st, id, snap, keys, upload, i);
    }
    forall i ensures ReadOk(c, st', all, i) {
      assert ReadOk(c, st, written, i);
      if i != id {
        AppendKeepsReads(c, st, written, id, snap, w, keys, upload, i);
      }
    }
    forall i, j ensures ObjectsApart(st', i, j) {
      assert ReadOk(c, st, written, i) && ReadOk(c, st, written, j) && ObjectsApart(st, i, j);
      AppendKeepsApart(c, st, written, id, snap, keys, upload, i, j);
    }
  }

  /** Deleting rows other than HEADs, with at most their own objects, keeps every invariant. */
  lemma RemoveKeepsStore(c: Codec, st: Store, written: map<nat, Written>, doomed: set<nat>, objects: set<string>)
    requires StoreOk(c, st, written)
    requires forall d :: d in st.heads ==> st.heads[d] !in doomed
    requires forall u :: u in objects ==> exists i :: i in doomed && i in st.snaps && st.snaps[i].lanes.uri == Some(u)
    ensures StoreOk(c, Remove(st, doomed, objects), written)
  {
    var st' := Remove(st, doomed, objects);
    forall d ensures HeadOk(st', d) {
      assert HeadOk(st, d);
    }
    forall i ensures ParentOk(st', i) {
      assert ParentOk(st, i);
    }
    forall i ensures ReadOk(c, st', written, i) {
      assert ReadOk(c, st, written, i);
      RemoveKeepsReads(c, st, written, doomed, objects, i);
    }
    forall i, j ensures ObjectsApart(st', i, j) {
      assert ObjectsApart(st, i, j);
    }
  }

  lemma RemoveKeepsReads(c: Codec, st: Store, written: map<nat, Written>, doomed: set<nat>, objects: set<string>,
                         i: nat)
    requires ReadOk(c, st, written, i)
    requires forall j :: ObjectsApart(st, i, j)
    requires forall u :: u in objects ==> exists i :: i in doomed && i in st.snaps && st.snaps[i].lanes.uri == Some(u)
    ensures ReadOk(c, Remove(st, doomed, objects), written, i)
  {
    if i in st.snaps && i !in doomed {
      var s := st.snaps[i];
      forall j | j in doomed && j in st.snaps ensures s.lanes.uri.Some? ==> st.snaps[j].lanes.uri != s.lanes.uri {
        assert ObjectsApart(st, i, j);
      }
      assert s.lanes.uri.Some? ==> s.lanes.uri.value !in objects;
      ReadIsLocal(c, st.keys, st.keys, st.objects, st.objects - objects, s.lanes, s.account, written[i].passphrase);
    }
  }

  /** A HEAD may be moved to any row of its own device. */
  lemma SetHeadKeepsStore(c: Codec, st: Store, written: map<nat, Written>, device: string, id: nat)
    requires StoreOk(c, st, written) && id in st.snaps && st.snaps[id].device == device
    ensures StoreOk(c, st.(heads := st.heads[device := id]), written)
  {
    var st' := st.(heads := st.heads[device := id]);
    forall d ensures HeadOk(st', d) {
      assert HeadOk(st, d);
    }
    forall i ensures ParentOk(st', i) && ReadOk(c, st', written, i) {
      assert ParentOk(st, i) && ReadOk(c, st, written, i);
    }
    forall i, j ensures ObjectsApart(st', i, j) {
      assert ObjectsApart(st, i, j);
    }
  }

  lemma DeleteKeepsStore(c: Codec, st: Store, written: map<nat, Written>, device: string, account: nat, id: nat)
    requires StoreOk(c, st, written) && Delete(st, device, account, id).Gone?
    ensures StoreOk(c, Delete(st, device, account, id).store, written)
  {
    forall d | d in st.heads ensures st.heads[d] != id {
      assert HeadOk(st, d);
    }
    RemoveKeepsStore(c, st, written, {id}, {});
  }

  /** A key is retired: the next sealed row gets a new one. */
  function Retired(st: Store, kid: string): Store
    requires kid in st.keys
  {
    st.(keys := st.keys[kid := st.keys[kid].(retired := true)])
  }

  /** It is no active key any more; no other key and nothing else changes. */
  lemma RetireIsExact(st: Store, kid: string, account: nat, passphrase: Option<string>)
    requires kid in st.keys
    ensures
      var st' := Retired(st, kid);
      && st'.keys.Keys == st.keys.Keys && !IsActiveKey(st'.keys[kid], account, passphrase)
      && (forall k :: k in st.keys && k != kid ==> st'.keys[k] == st.keys[k])
      && st'.snaps == st.snaps && st'.heads == st.heads && st'.objects == st.objects
  {
  }

  /** A retired key still opens what it sealed. */
  lemma RetireKeepsReads(c: Codec, st: Store, kid: string, s: Snap, passphrase: Option<string>)
    requires kid in st.keys
    ensures Read(c, Retired(st, kid).keys, st.objects, s.lanes, s.account, passphrase) ==
            Read(c, st.keys, st.objects, s.lanes, s.account, passphrase)
  {
    forall k, sealed ensures Decrypt(c, Retired(st, kid).keys, k, s.account, sealed, passphrase) ==
                             Decrypt(c, st.keys, k, s.account, sealed, passphrase)
    {
      RetireKeepsDecrypt(c, st, kid, k, s.account, sealed, passphrase);
    }
    ReadFollowsDecrypt(c, Retired(st, kid).keys, passphrase, st.keys, passphrase, st.objects, s);
  }

  lemma RetireKeepsDecrypt(c: Codec, st: Store, kid: string, k: string, account: Option<nat>, sealed: Bytes,
                           passphrase: Option<string>)
    requires kid in st.keys
    ensures Decrypt(c, Retired(st, kid).keys, k, account, sealed, passphrase) ==
            Decrypt(c, st.keys, k, account, sealed, passphrase)
  {
    var row := st.keys[kid];
    assert Unwrap(c, row.(retired := true), passphrase) == Unwrap(c, row, passphrase);
  }

  /** Two ways of decrypting a row's blob that agree read the same. */
  lemma ReadFollowsDecrypt(c: Codec, keys: map<string, KeyRow>, p: Option<string>, keys': map<string, KeyRow>,
                           q: Option<string>, objects: map<string, Bytes>, s: Snap)
    requires s.lanes.kid.Some? && s.lanes.kid.value != "" ==>
               forall sealed :: Decrypt(c, keys, s.lanes.kid.value, s.account, sealed, p) ==
                                Decrypt(c, keys', s.lanes.kid.value, s.account, sealed, q)
    ensures Read(c, keys, objects, s.lanes, s.account, p) == Read(c, keys', objects, s.lanes, s.account, q)
  {
  }

  lemma RetireKeepsStore(c: Codec, st: Store, written: map<nat, Written>, kid: string)
    requires StoreOk(c, st, written) && kid in st.keys
    ensures StoreOk(c, Retired(st, kid), written)
  {
    var st' := Retired(st, kid);
    forall d ensures HeadOk(st', d) {
      assert HeadOk(st, d);
    }
    forall i ensures ParentOk(st', i) && ReadOk(c, st', written, i) {
      assert ParentOk(st, i) && ReadOk(c, st, written, i);
      if i in st.snaps {
        RetireKeepsReads(c, st, kid, st.snaps[i], written[i].passphrase);
      }
    }
    forall i, j ensures ObjectsApart(st', i, j) {
      assert ObjectsApart(st, i, j);
    }
  }

  /**
   Exactly what a delete does: not found unless the row is the account's on that
   device, refused for its HEAD, and else that row alone goes. The rows that named it
   as their parent have none then; everything else stays.
   */
  lemma DeleteIsExact(st: Store, device: string, account: nat, id: nat)
    ensures
      var r := Delete(st, device, account, id);
      var owned := id in st.snaps && st.snaps[id].device == device && st.snaps[id].account == Some(account);
      && (r.Missing? <==> !owned)
      && (r.IsHead? <==> owned && device in st.heads && st.heads[device] == id)
      && (r.Gone? ==>
            && r.store.heads == st.heads && r.store.keys == st.keys && r.store.objects == st.objects
            && r.store.snaps.Keys == st.snaps.Keys - {id}
            && forall i :: i in r.store.snaps ==> IsRowWithout(r.store.snaps[i], st.snaps[i], {id}))
  {
    assert st.objects - {} == st.objects;
  }

  /** The same row, except that a parent among the deleted rows is forgotten. */
  predicate IsRowWithout(s': Snap, s: Snap, deleted: set<nat>) {
    && s'.parent == (if s.parent.Some? && s.parent.value in deleted then None else s.parent)
    && s'.device == s.device && s'.account == s.account && s'.createdAt == s.createdAt
    && s'.labelText == s.labelText && s'.kind == s.kind && s'.lanes == s.lanes && s'.checksum == s.checksum
  }

  // ---------------------------------------------------- what was written last

  /** What can be read without a passphrase reads the same with one. */
  lemma PassphraseIsNotNeeded(c: Codec, keys: map<string, KeyRow>, objects: map<string, Bytes>, l: Lanes,
                              account: Option<nat>, passphrase: Option<string>)
    requires Read(c, keys, objects, l, account, None).Ok?
    ensures Read(c, keys, objects, l, account, passphrase) == Read(c, keys, objects, l, account, None)
  {
  }

  /**
   After a create, HEAD is the returned row, and the payload written into that
   row is the one just given, even when the row is an older one that was reused.
   A new row carries what the caller gave and names the previous HEAD as its parent.
   */
  lemma CreateWritesHead(c: Codec, limits: Limits, st: Store, written: map<nat, Written>, d: Draft, env: Env)
    requires Lawful(c) && StoreOk(c, st, written) && EnvOk(st, d, env) && Create(c, limits, st, d, env).Ok?
    ensures
      var (st', id) := Create(c, limits, st, d, env).value;
      var written' := Recorded(c, st, written, d, id);
      && GetHead(st', d.device) == Some(id) && st'.snaps[id].device == d.device
      && id in written' && written'[id].payload == d.payload
      && ExactlyOneLane(st'.snaps[id].lanes)
      && Read(c, st'.keys, st'.objects, st'.snaps[id].lanes, st'.snaps[id].account, written'[id].passphrase) ==
         Ok(d.payload)
      && (!ReusesHead(c, st, d) ==>
            var s := st'.snaps[id];
            && id == env.id && s.createdAt == env.now && s.account == d.account && s.kind == d.kind
            && s.labelText == d.labelText && s.parent == GetHead(st, d.device))
  {
    CreateKeepsStore(c, limits, st, written, d, env);
    var (st', id) := Create(c, limits, st, d, env).value;
    var written' := Recorded(c, st, written, d, id);
    assert HeadOk(st, d.device) && ReadOk(c, st', written', id);
    if ReusesHead(c, st, d) {
      var was := written[id].payload;
      assert c.digest(c.canonical(was)) == c.digest(c.canonical(d.payload));
      assert c.parse(c.canonical(was)) == Some(was) && c.parse(c.canonical(d.payload)) == Some(d.payload);
    }
  }

  /**
   Exactly when the current HEAD is reused: it holds the same checksum, and the caller
   gave no label, did not ask for encryption and gave no passphrase.
   */
  lemma HeadIsReusedExactly(c: Codec, limits: Limits, st: Store, d: Draft, env: Env)
    requires EnvOk(st, d, env) && Create(c, limits, st, d, env).Ok?
    ensures
      var (st', id) := Create(c, limits, st, d, env).value;
      var reused :=
        && d.device in st.heads && st.heads[d.device] in st.snaps
        && st.snaps[st.heads[d.device]].checksum == c.digest(c.canonical(d.payload))
        && d.labelText.None? && !d.encrypt && (d.passphrase.None? || d.passphrase.value == "");
      && (reused ==> st' == st && id == st.heads[d.device])
      && (!reused ==> id == env.id && st'.snaps.Keys == st.snaps.Keys + {id})
  {
  }

  /**
   What is encrypted, told from the caller's flags. With an account, asking for
   encryption or giving a passphrase yields a new sealed row under an active key of the
   account, of the kind the credential calls for. Otherwise a new row is not sealed.
   */
  lemma SealedAsAsked(c: Codec, limits: Limits, st: Store, d: Draft, env: Env)
    requires EnvOk(st, d, env) && Create(c, limits, st, d, env).Ok?
    ensures
      var (st', id) := Create(c, limits, st, d, env).value;
      var asked := d.encrypt || (d.passphrase.Some? && d.passphrase.value != "");
      && (asked && d.account.Some? ==>
            && id == env.id && id in st'.snaps
            && IsSealed(st', st'.snaps[id].lanes, d.account.value, d.passphrase.Some?))
      && (asked && d.account.None? ==> id == env.id && id in st'.snaps && st'.snaps[id].lanes.kid.None?)
      && (!asked && id == env.id ==> id in st'.snaps && st'.snaps[id].lanes.kid.None?)
  {
    HeadIsReusedExactly(c, limits, st, d, env);
    if Packed(c, limits, st, d, env).Ok? {
      PackedAsAsked(c, limits, st, d, env);
    }
  }

  /** Only the blob is filled, under an active key of the account that opens by passphrase or not. */
  predicate IsSealed(st: Store, l: Lanes, account: nat, byPassphrase: bool) {
    && l.json.None? && l.uri.None? && l.blob.Some? && l.zstd
    && l.kid.Some? && l.kid.value in st.keys
    && st.keys[l.kid.value].account == account && !st.keys[l.kid.value].retired
    && (st.keys[l.kid.value].passwordDerived <==> byPassphrase)
  }

  lemma PackedAsAsked(c: Codec, limits: Limits, st: Store, d: Draft, env: Env)
    requires EnvOk(st, d, env) && Packed(c, limits, st, d, env).Ok?
    ensures
      var (lanes, keys, upload) := Packed(c, limits, st, d, env).value;
      if d.account.Some? && (d.encrypt || (d.passphrase.Some? && d.passphrase.value != "")) then
        IsSealed(st.(keys := keys), lanes, d.account.value, d.passphrase.Some?)
      else
        lanes.kid.None? && keys == st.keys
  {
  }

  /** A create touches the HEAD of its own device only, and no object or key that is there. */
  lemma CreateIsLocal(c: Codec, limits: Limits, st: Store, d: Draft, env: Env, device: string)
    requires EnvOk(st, d, env) && Create(c, limits, st, d, env).Ok? && device != d.device
    ensures
      var st' := Create(c, limits, st, d, env).value.0;
      && (device in st'.heads <==> device in st.heads) && (device in st.heads ==> st'.heads[device] == st.heads[device])
      && (forall k :: k in st.keys ==> k in st'.keys && st'.keys[k] == st.keys[k])
      && (forall u :: u in st.objects ==> u in st'.objects && st'.objects[u] == st.objects[u])
  {
  }

  /** The row is sealed under a key that only a passphrase opens. */
  predicate NeedsPassphrase(st: Store, s: Snap) {
    && s.lanes.json.None? && s.lanes.kid.Some? && s.lanes.kid.value != ""
    && s.lanes.kid.value in st.keys && st.keys[s.lanes.kid.value].passwordDerived
  }

  /** Whatever does not need a passphrase reads the same with any. */
  lemma OtherRowsIgnoreThePassphrase(c: Codec, st: Store, s: Snap, p: Option<string>, q: Option<string>)
    requires !NeedsPassphrase(st, s)
    ensures Read(c, st.keys, st.objects, s.lanes, s.account, p) == Read(c, st.keys, st.objects, s.lanes, s.account, q)
  {
  }

  lemma NoPassphraseNoRead(c: Codec, st: Store, s: Snap, p: Option<string>)
    requires NeedsPassphrase(st, s) && (p.None? || p.value == "")
    ensures Read(c, st.keys, st.objects, s.lanes, s.account, p).Err?
  {
  }

  /**
   Exactly when a caller can read back what it has just written, with its own
   credential: unless it reused a HEAD that somebody sealed under a passphrase.
   */
  lemma CallerReadsBackExactly(c: Codec, limits: Limits, st: Store, written: map<nat, Written>, d: Draft, env: Env)
    requires Lawful(c) && StoreOk(c, st, written) && EnvOk(st, d, env) && Create(c, limits, st, d, env).Ok?
    ensures
      var (st', id) := Create(c, limits, st, d, env).value;
      && id in st'.snaps
      && (Read(c, st'.keys, st'.objects, st'.snaps[id].lanes, st'.snaps[id].account, d.passphrase) == Ok(d.payload) <==>
          !(ReusesHead(c, st, d) && NeedsPassphrase(st, st.snaps[GetHead(st, d.device).value])))
  {
    CreateWritesHead(c, limits, st, written, d, env);
    if ReusesHead(c, st, d) {
      var head := GetHead(st, d.device).value;
      if NeedsPassphrase(st, st.snaps[head]) {
        NoPassphraseNoRead(c, st, st.snaps[head], d.passphrase);
      } else {
        OtherRowsIgnoreThePassphrase(c, st, st.snaps[head], d.passphrase, written[head].passphrase);
      }
    }
  }

  /** What is packed with a passphrase is sealed under a key that only a passphrase opens. */
  lemma SealedNeedsPassphrase(c: Codec, limits: Limits, st: Store, d: Draft, env: Env)
    requires EnvOk(st, d, env) && Packed(c, limits, st, d, env).Ok?
    requires d.account.Some? && d.passphrase.Some? && d.passphrase.value != ""
    ensures
      var (lanes, keys, upload) := Packed(c, limits, st, d, env).value;
      && lanes.json.None? && lanes.kid.Some? && lanes.kid.value != ""
      && lanes.kid.value in keys && keys[lanes.kid.value].passwordDerived
  {
    assert WantsEncryption(d);
  }

  /** A plain create right after a passphrase create of the same payload returns the sealed row and cannot read it. */
  lemma PlainCreateAfterSealedOne(c: Codec, limits: Limits, st: Store, d: Draft, env: Env, kind: Kind, env': Env)
    requires EnvOk(st, d, env) && Create(c, limits, st, d, env).Ok?
    requires d.account.Some? && d.passphrase.Some? && d.passphrase.value != ""
    ensures
      var (st', id) := Create(c, limits, st, d, env).value;
      var again := Draft(d.device, d.account, d.payload, kind, None, false, None);
      && Create(c, limits, st', again, env') == Ok((st', id)) && id in st'.snaps
      && Read(c, st'.keys, st'.objects, st'.snaps[id].lanes, st'.snaps[id].account, None).Err?
  {
    var (st', id) := Create(c, limits, st, d, env).value;
    assert WantsEncryption(d) && GetHead(st', d.device) == Some(id);
    SealedNeedsPassphrase(c, limits, st, d, env);
    NoPassphraseNoRead(c, st', st'.snaps[id], None);
  }

  /** A create never changes or removes a row that is already there. */
  lemma CreateKeepsRows(c: Codec, limits: Limits, st: Store, d: Draft, env: Env, i: nat)
    requires EnvOk(st, d, env) && Create(c, limits, st, d, env).Ok? && i in st.snaps
    ensures
      var st' := Create(c, limits, st, d, env).value.0;
      i in st'.snaps && st'.snaps[i] == st.snaps[i]
  {
  }

  lemma RestoreKeepsStore(c: Codec, limits: Limits, st: Store, written: map<nat, Written>, device: string, account: nat,
                          target: nat, labelText: string, env: Env, payload: Payload)
    requires Lawful(c) && StoreOk(c, st, written)
    requires EnvOk(st, KeepsakeDraft(device, account, payload, labelText), env)
    requires Restore(c, limits, st, device, account, target, labelText, env).Ok?
    requires
      var current := GetHead(st, device);
      current.Some? && current.value != target &&
      Read(c, st.keys, st.objects, st.snaps[current.value].lanes, st.snaps[current.value].account, None) == Ok(payload)
    ensures StoreOk(c, Restore(c, limits, st, device, account, target, labelText, env).value,
                    written[env.id := Written(payload, None)])
  {
    var d := KeepsakeDraft(device, account, payload, labelText);
    CreateKeepsStore(c, limits, st, written, d, env);
    CreateKeepsRows(c, limits, st, d, env, target);
    var st' := Create(c, limits, st, d, env).value.0;
    SetHeadKeepsStore(c, st', written[env.id := Written(payload, None)], device, target);
  }

  /**
   A restore moves HEAD to the target, leaves the target row alone, and stores
   exactly what it displaced: one new labelled row of kind pre-restore, readable
   without a passphrase, holding the payload written into the displaced HEAD.
   */
  lemma RestoreIsReversible(c: Codec, limits: Limits, st: Store, written: map<nat, Written>, device: string,
                            account: nat,
                            target: nat, labelText: string, env: Env, payload: Payload)
    requires Lawful(c) && StoreOk(c, st, written)
    requires EnvOk(st, KeepsakeDraft(device, account, payload, labelText), env)
    requires Restore(c, limits, st, device, account, target, labelText, env).Ok?
    requires
      var current := GetHead(st, device);
      current.Some? && current.value != target &&
      Read(c, st.keys, st.objects, st.snaps[current.value].lanes, st.snaps[current.value].account, None) == Ok(payload)
    ensures
      var st' := Restore(c, limits, st, device, account, target, labelText, env).value;
      var copy := env.id;
      && st'.heads[device] == target && target in st'.snaps && st'.snaps[target] == st.snaps[target]
      && copy !in st.snaps && copy in st'.snaps && st'.snaps[copy].kind == PreRestore
      && st'.snaps[copy].labelText.Some? && st'.snaps[copy].device == device
      && st'.snaps[copy].parent == Some(st.heads[device])
      && st.heads[device] in written && payload == written[st.heads[device]].payload
      && Read(c, st'.keys, st'.objects, st'.snaps[copy].lanes, st'.snaps[copy].account, None) == Ok(payload)
  {
    var d := KeepsakeDraft(device, account, payload, labelText);
    var head := st.heads[device];
    CreateWritesHead(c, limits, st, written, d, env);
    CreateKeepsRows(c, limits, st, d, env, target);
    assert ReadOk(c, st, written, head);
    PassphraseIsNotNeeded(c, st.keys, st.objects, st.snaps[head].lanes, st.snaps[head].account,
                          written[head].passphrase);
  }

  /** Without a HEAD, or when HEAD is the target, a restore only sets HEAD; it never touches another device's HEAD. */
  lemma RestoreIsLocal(c: Codec, limits: Limits, st: Store, device: string, account: nat, target: nat,
                       labelText: string, env: Env)
    requires Restore(c, limits, st, device, account, target, labelText, env).Ok?
    ensures
      var st' := Restore(c, limits, st, device, account, target, labelText, env).value;
      && target in st.snaps && st.snaps[target].device == device && st.snaps[target].account == Some(account)
      && (GetHead(st, device).None? || GetHead(st, device).value == target ==>
            st'.snaps == st.snaps && st'.keys == st.keys && st'.objects == st.objects)
      && device in st'.heads && st'.heads[device] == target
      && (forall e :: e != device ==>
            (e in st'.heads <==> e in st.heads) && (e in st.heads ==> st'.heads[e] == st.heads[e]))
  {
  }

  /** What may stand against a restore: the current HEAD cannot be read without a passphrase, or not be copied. */
  predicate CanBeDisplaced(c: Codec, limits: Limits, st: Store, written: map<nat, Written>, head: nat, name: string)
    requires head in st.snaps && head in written
  {
    !NeedsPassphrase(st, st.snaps[head]) && PackPlain(c, limits, written[head].payload, name).Ok?
  }

  /**
   Exactly when a restore to an owned row succeeds: there is no HEAD, or it is the
   target, or it is not sealed under a passphrase and a plain copy of it can be
   stored. A device whose HEAD is sealed under a passphrase cannot be restored.
   */
  lemma RestoreSucceedsExactly(c: Codec, limits: Limits, st: Store, written: map<nat, Written>, device: string,
                               account: nat, target: nat, labelText: string, env: Env)
    requires StoreOk(c, st, written) && Owns(st, device, account, target)
    ensures
      var head := GetHead(st, device);
      && (head.Some? ==> head.value in written)
      && (Restore(c, limits, st, device, account, target, labelText, env).Ok? <==>
          head.None? || head.value == target || CanBeDisplaced(c, limits, st, written, head.value, env.objectName))
  {
    var head := GetHead(st, device);
    if head.Some? {
      var s := st.snaps[head.value];
      assert ReadOk(c, st, written, head.value);
      if NeedsPassphrase(st, s) {
        NoPassphraseNoRead(c, st, s, None);
      } else {
        OtherRowsIgnoreThePassphrase(c, st, s, None, written[head.value].passphrase);
      }
    }
  }

  // ------------------------------------------------------------ parent chains

  /** The chain of parents of a row, nearest first. */
  ghost function Ancestors(st: Store, i: nat): seq<nat>
    requires forall j :: ParentOk(st, j)
    decreases i
  {
    if i !in st.snaps || st.snaps[i].parent.None? then []
    else
      assert ParentOk(st, i);
      [st.snaps[i].parent.value] + Ancestors(st, st.snaps[i].parent.value)
  }

  /** Rows of `i`'s device with ids below `i`, each below the one before. */
  ghost predicate Descending(st: Store, i: nat, chain: seq<nat>)
    requires i in st.snaps
  {
    && (forall k :: 0 <= k < |chain| ==> chain[k] in st.snaps && st.snaps[chain[k]].device == st.snaps[i].device)
    && (forall k :: 0 <= k < |chain| ==> chain[k] < i)
    && (forall k, l :: 0 <= k < l < |chain| ==> chain[l] < chain[k])
  }

  /** So every chain ends, never meets itself, and stays on one device. */
  lemma {:induction false} AncestorsDescend(st: Store, i: nat)
    requires (forall j :: ParentOk(st, j)) && i in st.snaps
    ensures Descending(st, i, Ancestors(st, i))
    decreases i
  {
    assert ParentOk(st, i);
    if st.snaps[i].parent.Some? {
      var p := st.snaps[i].parent.value;
      AncestorsDescend(st, p);
      DescendingCons(st, i, p, Ancestors(st, p));
    }
  }

  lemma DescendingCons(st: Store, i: nat, p: nat, rest: seq<nat>)
    requires i in st.snaps && p in st.snaps && p < i && st.snaps[p].device == st.snaps[i].device
    requires Descending(st, p, rest)
    ensures Descending(st, i, [p] + rest)
  {
    var chain := [p] + rest;
    assert forall k :: 1 <= k < |chain| ==> chain[k] == rest[k - 1];
  }

  // --------------------------------------------------------------- the tables

  /** The tables the service writes, one transaction at a time. */
  class SnapshotDb {
    var snaps: map<nat, Snap>
    var heads: map<string, nat>
    var keys: map<string, KeyRow>
    var objects: map<string, Bytes>

    ghost function State(): Store
      reads this
    {
      Store(snaps, heads, keys, objects)
    }

    method HeadOf(device: string) returns (head: Option<nat>)
      ensures head == GetHead(State(), device)
    {
      if device !in heads {
        return None;
      }
      head := if heads[device] in snaps then Some(heads[device]) else None;
    }

    method SetHead(device: string, id: nat)
      modifies this`heads
      ensures heads == old(heads)[device := id]
    {
      heads := heads[device := id];
    }

    /**
     The account's active key row, minted on first use. `found` is what the first
     lookup returns. An insert beside an active key violates the unique index and
     falls back to what a second lookup returns.
     */
    method ActiveKey(c: Codec, account: nat, passphrase: Option<string>, random: Fresh, found: Option<string>,
                     again: Option<string>)
      returns (kid: Result<string>)
      requires found.Some? ==> found.value in keys
      requires again.Some? ==> again.value in keys && IsActiveKey(keys[again.value], account, passphrase)
      requires again.None? ==> forall k :: k in keys ==> !IsActiveKey(keys[k], account, passphrase)
      modifies this`keys
      ensures found.Some? ==> kid == Ok(found.value) && keys == old(keys)
      ensures found.None? ==>
                var minted := Mint(c, account, passphrase, random);
                && kid == (if minted.Err? then Err(minted.error)
                           else if again.Some? then Ok(again.value)
                           else Ok(random.kid))
                && keys == (if minted.Ok? && again.None? then old(keys)[random.kid := minted.value] else old(keys))
    {
      if found.Some? {
        return Ok(found.value);
      }
      var minted := Mint(c, account, passphrase, random);
      if minted.Err? {
        return Err(minted.error);
      }
      var violated := exists k :: k in keys && IsActiveKey(keys[k], account, passphrase);
      if violated {
        return Ok(again.value);
      }
      keys := keys[random.kid := minted.value];
      kid := Ok(random.kid);
    }

    /** Append and move HEAD, or reuse HEAD; an error rolls the transaction back. */
    method CreateSnapshot(c: Codec, limits: Limits, d: Draft, env: Env) returns (r: Result<nat>)
      requires ActiveKeyOk(keys, d, env)
      modifies this
      ensures
        var spec := Create(c, limits, old(State()), d, env);
        && r == (if spec.Ok? then Ok(spec.value.1) else Err(spec.error))
        && State() == (if spec.Ok? then spec.value.0 else old(State()))
    {
      var checksum := c.digest(c.canonical(d.payload));
      var head := HeadOf(d.device);
      if head.Some? && snaps[head.value].checksum == checksum && d.labelText.None? && !WantsEncryption(d) {
        return Ok(head.value);
      }
      var lanes, upload;
      if WantsEncryption(d) && d.account.Some? {
        var before := keys;
        var found := if env.missed then None else env.activeKey;
        var kid := ActiveKey(c, d.account.value, d.passphrase, env.random, found, env.activeKey);
        if kid.Err? {
          return Err(kid.error);
        }
        var sealed := PackSealed(c, keys[kid.value], kid.value, d.account.value, d.payload, d.passphrase, env.nonce);
        if sealed.Err? {
          keys := before;
          return Err(sealed.error);
        }
        lanes, upload := sealed.value, map[];
      } else {
        var plain := PackPlain(c, limits, d.payload, env.objectName);
        if plain.Err? {
          return Err(plain.error);
        }
        lanes, upload := plain.value.0, plain.value.1;
      }
      snaps := snaps[env.id := Snap(d.device, d.account, env.now, d.labelText, d.kind, lanes, checksum, head)];
      objects := objects + upload;
      SetHead(d.device, env.id);
      r := Ok(env.id);
    }

    method RestoreBackup(c: Codec, limits: Limits, device: string, account: nat, target: nat, labelText: string,
                         env: Env)
      returns (error: Option<Error>)
      modifies this
      ensures
        var spec := Restore(c, limits, old(State()), device, account, target, labelText, env);
        && error == (if spec.Ok? then None else Some(spec.error))
        && State() == (if spec.Ok? then spec.value else old(State()))
    {
      if target !in snaps || snaps[target].device != device || snaps[target].account != Some(account) {
        return Some(NotFound);
      }
      var current := HeadOf(device);
      if current.Some? && current.value != target {
        var snap := snaps[current.value];
        var payload := Read(c, keys, objects, snap.lanes, snap.account, None);
        if payload.Err? {
          return Some(payload.error);
        }
        var copy := CreateSnapshot(c, limits, KeepsakeDraft(device, account, payload.value, labelText), env);
        if copy.Err? {
          return Some(copy.error);
        }
      }
      SetHead(device, target);
      error := None;
    }

    /** Whether the row was found, and whether it was deleted. */
    method DeleteBackup(device: string, account: nat, id: nat) returns (found: bool, deleted: bool)
      modifies this
      ensures
        var spec := Delete(old(State()), device, account, id);
        && found == !spec.Missing? && deleted == spec.Gone?
        && State() == (if spec.Gone? then spec.store else old(State()))
    {
      found, deleted := false, false;
      if id !in snaps || snaps[id].device != device || snaps[id].account != Some(account) {
        return;
      }
      found := true;
      var head := HeadOf(device);
      if head == Some(id) {
        return;
      }
      snaps := map i | i in snaps && i != id :: Orphaned(snaps[i], {id});
      deleted := true;
    }
  }
}
