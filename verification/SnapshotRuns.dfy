/**
 Every run of the snapshot store: creates (by the backup endpoints, imports and
 sync pushes), restores, deletes, purges and the retirement of keys, in any order.
 */
module SnapshotRuns {
  import opened Common
  import opened PayloadLanes
  import opened SnapshotStore
  import opened Retention

  /** The store, and what was asked to be written into each row. */
  datatype World = World(st: Store, written: map<nat, Written>)

  datatype Step =
    | DoCreate(draft: Draft, env: Env)
    | DoRestore(device: string, account: nat, target: nat, labelText: string, env: Env)
    | DoDelete(device: string, account: nat, id: nat)
    | DoPurge(account: nat, policy: Policy, rank: map<nat, nat>, orphans: set<string>)
    | DoRetire(kid: string)

  const EMPTY := World(Store(map[], map[], map[], map[]), map[])

  function HeadPayload(c: Codec, st: Store, device: string): Result<Payload> {
    var head := GetHead(st, device);
    if head.None? then Err(NoLane)
    else Read(c, st.keys, st.objects, st.snaps[head.value].lanes, st.snaps[head.value].account, None)
  }

  /** The environment's choices fit the state. */
  ghost predicate Fits(c: Codec, w: World, step: Step) {
    match step
    case DoCreate(d, env) => EnvOk(w.st, d, env)
    case DoRestore(device, account, _, labelText, env) =>
      var p := HeadPayload(c, w.st, device);
      p.Ok? ==> EnvOk(w.st, KeepsakeDraft(device, account, p.value, labelText), env)
    case DoDelete(_, _, _) => true
    case DoPurge(account, p, rank, _) => IsRanking(w.st, EligibleIds(w.st, account, p.keepLabeled), rank)
    case DoRetire(kid) => kid in w.st.keys
  }

  /** A request that is refused or fails changes nothing. */
  function Next(c: Codec, limits: Limits, w: World, step: Step): World {
    match step
    case DoCreate(d, env) =>
      var r := Create(c, limits, w.st, d, env);
      if r.Err? then w else World(r.value.0, Recorded(c, w.st, w.written, d, r.value.1))
    case DoRestore(device, account, target, labelText, env) =>
      var r, p := Restore(c, limits, w.st, device, account, target, labelText, env), HeadPayload(c, w.st, device);
      if r.Err? then w
      else if p.Ok? && GetHead(w.st, device) != Some(target) then
        World(r.value, w.written[env.id := Written(p.value, None)])
      else w.(st := r.value)
    case DoDelete(device, account, id) =>
      var r := Delete(w.st, device, account, id);
      if r.Gone? then w.(st := r.store) else w
    case DoPurge(account, p, rank, orphans) => w.(st := Purge(w.st, account, p, rank, orphans))
    case DoRetire(kid) => if kid in w.st.keys then w.(st := Retired(w.st, kid)) else w
  }

  ghost function After(c: Codec, limits: Limits, run: seq<Step>): World {
    if run == [] then EMPTY
    else
      var w, step := After(c, limits, run[..|run| - 1]), run[|run| - 1];
      if Fits(c, w, step) then Next(c, limits, w, step) else w
  }

  lemma StepKeepsStore(c: Codec, limits: Limits, w: World, step: Step)
    requires Lawful(c) && StoreOk(c, w.st, w.written) && Fits(c, w, step)
    ensures StoreOk(c, Next(c, limits, w, step).st, Next(c, limits, w, step).written)
  {
    match step
    case DoCreate(d, env) =>
      if Create(c, limits, w.st, d, env).Ok? {
        CreateKeepsStore(c, limits, w.st, w.written, d, env);
      }
    case DoRestore(device, account, target, labelText, env) =>
      if Restore(c, limits, w.st, device, account, target, labelText, env).Ok? {
        var p := HeadPayload(c, w.st, device);
        if p.Ok? && GetHead(w.st, device) != Some(target) {
          RestoreKeepsStore(c, limits, w.st, w.written, device, account, target, labelText, env, p.value);
        } else {
          SetHeadKeepsStore(c, w.st, w.written, device, target);
        }
      }
    case DoDelete(device, account, id) =>
      if Delete(w.st, device, account, id).Gone? {
        DeleteKeepsStore(c, w.st, w.written, device, account, id);
      }
    case DoPurge(account, p, rank, orphans) =>
      PurgeKeepsStore(c, w.st, w.written, account, p, rank, orphans);
    case DoRetire(kid) =>
      RetireKeepsStore(c, w.st, w.written, kid);
  }

  /**
   In every reachable state each HEAD names a row of its own device, each parent
   link an older row of the same device, no two rows share an external object,
   and every row fills one lane and still gives its writer what was written.
   */
  lemma {:induction false} ReachableStoresAreOk(c: Codec, limits: Limits, run: seq<Step>)
    requires Lawful(c)
    ensures StoreOk(c, After(c, limits, run).st, After(c, limits, run).written)
  {
    if run != [] {
      var w, step := After(c, limits, run[..|run| - 1]), run[|run| - 1];
      ReachableStoresAreOk(c, limits, run[..|run| - 1]);
      if Fits(c, w, step) {
        StepKeepsStore(c, limits, w, step);
      }
    }
  }

  /** In every reachable state, a purge with any policy and any ranking spares every HEAD and every other account. */
  lemma ReachablePurgesAreSafe(c: Codec, limits: Limits, run: seq<Step>, account: nat, p: Policy, rank: map<nat, nat>,
                               i: nat)
    requires Lawful(c)
    requires i in Chosen(After(c, limits, run).st, account, p, rank)
    ensures
      var st := After(c, limits, run).st;
      && i in st.snaps && (forall d :: d in st.heads ==> st.heads[d] != i)
      && st.snaps[i].kind == Auto && st.snaps[i].account == Some(account)
      && (p.keepLabeled ==> st.snaps[i].labelText.None?)
  {
    ReachableStoresAreOk(c, limits, run);
    PurgeSpares(After(c, limits, run).st, account, p, rank, i);
  }

  /** In every reachable state, every chain of parents ends, never meets itself and stays on one device. */
  lemma ReachableChainsEnd(c: Codec, limits: Limits, run: seq<Step>, i: nat)
    requires Lawful(c) && i in After(c, limits, run).st.snaps
    ensures (forall j :: ParentOk(After(c, limits, run).st, j))
    ensures Descending(After(c, limits, run).st, i, Ancestors(After(c, limits, run).st, i))
  {
    ReachableStoresAreOk(c, limits, run);
    AncestorsDescend(After(c, limits, run).st, i);
  }

  /** In every reachable state, whoever wrote a row that is still there reads back exactly what they wrote. */
  lemma ReachableRowsRead(c: Codec, limits: Limits, run: seq<Step>, i: nat)
    requires Lawful(c) && i in After(c, limits, run).st.snaps
    ensures
      var w := After(c, limits, run);
      var s := w.st.snaps[i];
      && i in w.written && ExactlyOneLane(s.lanes)
      && Read(c, w.st.keys, w.st.objects, s.lanes, s.account, w.written[i].passphrase) == Ok(w.written[i].payload)
  {
    ReachableStoresAreOk(c, limits, run);
    assert ReadOk(c, After(c, limits, run).st, After(c, limits, run).written, i);
  }
}
