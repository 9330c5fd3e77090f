/**
 The retention purge (app/snapshots.py, app/retention.py): rank the eligible
 rows of each device by age, choose those past the quota or the expiry, spare
 every HEAD, and delete in chunks.

 The ranking is any numbering the database may produce: newest first, rows with
 one timestamp in any order.
 */
module Retention {
  import opened Common
  import opened WrappedKey
  import opened PayloadLanes
  import opened SnapshotStore

  datatype Policy = Policy(keepLastN: int, cutoff: Option<Time>, keepLabeled: bool)

  predicate Eligible(s: Snap, account: nat, keepLabeled: bool) {
    s.account == Some(account) && s.kind == Auto && (keepLabeled ==> s.labelText.None?)
  }

  function EligibleIds(st: Store, account: nat, keepLabeled: bool): set<nat> {
    set i | i in st.snaps && Eligible(st.snaps[i], account, keepLabeled)
  }

  /** The eligible rows of one device that are ranked before `i`. */
  function Ahead(st: Store, ids: set<nat>, rank: map<nat, nat>, i: nat): set<nat>
    requires ids <= st.snaps.Keys && ids <= rank.Keys && i in ids
  {
    set j | j in ids && st.snaps[j].device == st.snaps[i].device && rank[j] < rank[i]
  }

  predicate IsNewer(s: Snap, t: Snap) {
    s.device == t.device && s.createdAt > t.createdAt
  }

  /** No two rows of a device have one rank. */
  ghost predicate RanksDiffer(st: Store, ids: set<nat>, rank: map<nat, nat>)
    requires ids <= st.snaps.Keys && ids <= rank.Keys
  {
    forall i, j :: i in ids && j in ids && i != j && st.snaps[i].device == st.snaps[j].device ==> rank[i] != rank[j]
  }

  /** A ROW_NUMBER over each device's rows, newest first. */
  ghost predicate IsRanking(st: Store, ids: set<nat>, rank: map<nat, nat>) {
    && ids <= st.snaps.Keys && rank.Keys == ids
    && (forall i :: i in ids ==> rank[i] == |Ahead(st, ids, rank, i)| + 1)
    && RanksDiffer(st, ids, rank)
    && (forall i, j :: i in ids && j in ids && IsNewer(st.snaps[i], st.snaps[j]) ==> rank[i] < rank[j])
  }

  /** The HEADs of the devices on which the account has a row. */
  function SparedHeads(st: Store, account: nat): set<nat> {
    set d, i | d in st.heads && i in st.snaps && st.snaps[i].device == d && st.snaps[i].account == Some(account)
      :: st.heads[d]
  }

  predicate Expired(s: Snap, cutoff: Option<Time>) {
    cutoff.Some? && s.createdAt <= cutoff.value
  }

  function Chosen(st: Store, account: nat, p: Policy, rank: map<nat, nat>): set<nat> {
    set i | i in EligibleIds(st, account, p.keepLabeled) && i in rank
            && (rank[i] > p.keepLastN || Expired(st.snaps[i], p.cutoff)) && i !in SparedHeads(st, account)
  }

  /** The external objects of the chosen rows. */
  function ChosenObjects(st: Store, chosen: set<nat>): set<string> {
    set i | i in chosen && i in st.snaps && st.snaps[i].lanes.uri.Some? :: st.snaps[i].lanes.uri.value
  }

  /** A purge; the objects that the backend failed to delete stay behind as orphans. */
  function Purge(st: Store, account: nat, p: Policy, rank: map<nat, nat>, orphans: set<string>): Store {
    var chosen := Chosen(st, account, p, rank);
    Remove(st, chosen, ChosenObjects(st, chosen) - orphans)
  }

  // ----------------------------------------------------------------- safety

  /**
   Where HEADs are sound, a purge deletes no HEAD of any device, no row of
   another kind or account, and no labelled row when labels are kept.
   */
  lemma PurgeSpares(st: Store, account: nat, p: Policy, rank: map<nat, nat>, i: nat)
    requires forall d :: HeadOk(st, d)
    requires i in st.snaps && i in Chosen(st, account, p, rank)
    ensures forall d :: d in st.heads ==> st.heads[d] != i
    ensures st.snaps[i].kind == Auto && st.snaps[i].account == Some(account)
    ensures p.keepLabeled ==> st.snaps[i].labelText.None?
  {
    forall d | d in st.heads ensures st.heads[d] != i {
      assert HeadOk(st, d);
    }
  }

  /**
   Exactly when a purge would choose a row that is some device's HEAD: it is eligible
   and due, and the account has no row on any device whose HEAD it is. So it is the
   HEAD of other devices only, never of its own.
   */
  lemma HeadIsChosenExactly(st: Store, account: nat, p: Policy, rank: map<nat, nat>, i: nat)
    requires i in st.snaps && rank.Keys == EligibleIds(st, account, p.keepLabeled)
    ensures
      i in Chosen(st, account, p, rank) <==>
      && Eligible(st.snaps[i], account, p.keepLabeled) && (rank[i] > p.keepLastN || Expired(st.snaps[i], p.cutoff))
      && forall d :: d in st.heads && st.heads[d] == i ==>
           forall j :: j in st.snaps && st.snaps[j].device == d ==> st.snaps[j].account != Some(account)
    ensures i in Chosen(st, account, p, rank) ==>
              forall d :: d in st.heads && st.heads[d] == i ==> st.snaps[i].device != d
  {
  }

  /** The invariant is needed: a HEAD that names another device's row would be purged. */
  lemma DanglingHeadIsPurged(s: Snap, rank: map<nat, nat>)
    requires s.device == "a" && Eligible(s, 1, true) && rank == map[7 := 1]
    ensures
      var st := Store(map[7 := s], map["b" := 7], map[], map[]);
      && IsRanking(st, EligibleIds(st, 1, true), rank)
      && st.heads["b"] in Chosen(st, 1, Policy(0, None, true), rank)
  {
    var st := Store(map[7 := s], map["b" := 7], map[], map[]);
    assert EligibleIds(st, 1, true) == {7};
    assert Ahead(st, {7}, rank, 7) == {};
    assert SparedHeads(st, 1) == {};
  }

  lemma PurgeKeepsStore(c: Codec, st: Store, written: map<nat, Written>, account: nat, p: Policy, rank: map<nat, nat>,
                        orphans: set<string>)
    requires StoreOk(c, st, written)
    ensures StoreOk(c, Purge(st, account, p, rank, orphans), written)
  {
    var chosen := Chosen(st, account, p, rank);
    forall d | d in st.heads ensures st.heads[d] !in chosen {
      assert HeadOk(st, d);
      if st.heads[d] in chosen {
        PurgeSpares(st, account, p, rank, st.heads[d]);
      }
    }
    RemoveKeepsStore(c, st, written, chosen, ChosenObjects(st, chosen) - orphans);
  }

  // ------------------------------------------------------------------ quota

  /** The eligible rows a device still has after a purge, apart from its HEAD. */
  function KeptBesideHead(st: Store, account: nat, p: Policy, rank: map<nat, nat>, device: string): set<nat> {
    set i | i in EligibleIds(Purge(st, account, p, rank, {}), account, p.keepLabeled)
            && i in st.snaps && st.snaps[i].device == device && GetHead(st, device) != Some(i)
  }

  /** Distinct positive numbers up to n are at most n many. */
  lemma {:induction false} FewRanks(ids: set<nat>, rank: map<nat, nat>, n: nat)
    requires ids <= rank.Keys
    requires forall i :: i in ids ==> 1 <= rank[i] <= n
    requires forall i, j :: i in ids && j in ids && i != j ==> rank[i] != rank[j]
    ensures |ids| <= n
  {
    if ids != {} {
      if i :| i in ids && rank[i] == n {
        FewRanks(ids - {i}, rank, n - 1);
      } else {
        FewRanks(ids, rank, n - 1);
      }
    }
  }

  lemma SurvivorsAreEligible(st: Store, account: nat, p: Policy, rank: map<nat, nat>, orphans: set<string>)
    ensures EligibleIds(Purge(st, account, p, rank, orphans), account, p.keepLabeled) ==
            EligibleIds(st, account, p.keepLabeled) - Chosen(st, account, p, rank)
  {
  }

  /** Every device keeps at most the quota of eligible rows beside its HEAD, whatever the tie-breaking. */
  lemma PurgeMeetsQuota(st: Store, account: nat, p: Policy, rank: map<nat, nat>, device: string)
    requires IsRanking(st, EligibleIds(st, account, p.keepLabeled), rank)
    requires forall d :: HeadOk(st, d)
    ensures |KeptBesideHead(st, account, p, rank, device)| <= if p.keepLastN > 0 then p.keepLastN else 0
  {
    var ids := EligibleIds(st, account, p.keepLabeled);
    var kept := KeptBesideHead(st, account, p, rank, device);
    SurvivorsAreEligible(st, account, p, rank, {});
    forall i | i in kept ensures i in ids && rank[i] <= p.keepLastN {
      forall d | d in st.heads ensures st.heads[d] != i {
        assert HeadOk(st, d);
      }
      SurvivorIsRankedLow(st, account, p, rank, i);
    }
    FewRanks(kept, rank, if p.keepLastN > 0 then p.keepLastN else 0);
  }

  /**
   Exactly which rows a purge deletes: automatic rows of the account, unlabelled where
   labels are kept, that are ranked past the quota or not newer than the cutoff, and
   that are no HEAD.
   */
  lemma PurgeDeletesExactly(st: Store, account: nat, p: Policy, rank: map<nat, nat>, orphans: set<string>, i: nat)
    requires IsRanking(st, EligibleIds(st, account, p.keepLabeled), rank)
    requires (forall d :: HeadOk(st, d)) && i in st.snaps
    ensures
      var s := st.snaps[i];
      i !in Purge(st, account, p, rank, orphans).snaps <==>
      && s.kind == Auto && s.account == Some(account) && (p.keepLabeled ==> s.labelText.None?)
      && ((i in rank && rank[i] > p.keepLastN) || (p.cutoff.Some? && s.createdAt <= p.cutoff.value))
      && forall d :: d in st.heads ==> st.heads[d] != i
  {
    if d :| d in st.heads && st.heads[d] == i {
      assert HeadOk(st, d);
    }
  }

  /** Every automatic row of the account that may be purged is ranked, and no other row. */
  lemma RankedExactly(st: Store, account: nat, p: Policy, rank: map<nat, nat>, i: nat)
    requires IsRanking(st, EligibleIds(st, account, p.keepLabeled), rank)
    ensures i in rank <==>
            && i in st.snaps && st.snaps[i].kind == Auto && st.snaps[i].account == Some(account)
            && (p.keepLabeled ==> st.snaps[i].labelText.None?)
  {
  }

  /**
   What a purge leaves: the rows it does not delete, as they were but for parents that
   it deleted; all HEADs and keys; and of the objects those that no deleted row named
   or that could not be deleted.
   */
  lemma PurgeLeavesTheRest(st: Store, account: nat, p: Policy, rank: map<nat, nat>, orphans: set<string>)
    ensures
      var st', gone := Purge(st, account, p, rank, orphans), Chosen(st, account, p, rank);
      && st'.heads == st.heads && st'.keys == st.keys && st'.snaps.Keys == st.snaps.Keys - gone
      && (forall i :: i in st'.snaps ==> IsRowWithout(st'.snaps[i], st.snaps[i], gone))
      && (forall u :: u in st'.objects <==>
            && u in st.objects
            && (u in orphans || forall i :: i in gone && i in st.snaps ==> st.snaps[i].lanes.uri != Some(u)))
      && (forall u :: u in st'.objects ==> st'.objects[u] == st.objects[u])
  {
  }

  /** A row deleted for its rank has at least the quota of eligible rows of its device that are no older. */
  lemma RankedOutRowsAreOld(st: Store, account: nat, p: Policy, rank: map<nat, nat>, i: nat)
    requires IsRanking(st, EligibleIds(st, account, p.keepLabeled), rank)
    requires i in Chosen(st, account, p, rank) && !Expired(st.snaps[i], p.cutoff)
    ensures
      var ids := EligibleIds(st, account, p.keepLabeled);
      var ahead := Ahead(st, ids, rank, i);
      && |ahead| >= p.keepLastN
      && forall j :: j in ahead ==>
           j in ids && j != i && NoOlder(st, j, i)
  {
    var ids := EligibleIds(st, account, p.keepLabeled);
    forall j | j in Ahead(st, ids, rank, i) ensures st.snaps[j].createdAt >= st.snaps[i].createdAt {
      assert !IsNewer(st.snaps[i], st.snaps[j]);
    }
  }

  // ------------------------------------------------------- purging once more

  /** A full quota of distinct ranks ahead of a row within the quota reaches beyond the quota. */
  lemma FullQuotaReachesBeyond(rank: map<nat, nat>, ahead: set<nat>, i: nat, n: nat) returns (h: nat)
    requires DistinctRanks(rank, ahead + {i}) && i !in ahead && i in rank && rank[i] <= n <= |ahead|
    ensures h in ahead && h in rank && rank[h] > n
  {
    if forall h :: h in ahead && h in rank ==> rank[h] <= n {
      FewRanks(ahead + {i}, rank, n);
    }
    h :| h in ahead && h in rank && rank[h] > n;
  }

  /** A row that survives the purge and is no HEAD was within the quota. */
  lemma SurvivorIsRankedLow(st: Store, account: nat, p: Policy, rank: map<nat, nat>, i: nat)
    requires rank.Keys == EligibleIds(st, account, p.keepLabeled)
    requires i in EligibleIds(st, account, p.keepLabeled) && i !in Chosen(st, account, p, rank)
    requires forall d :: d in st.heads ==> st.heads[d] != i
    ensures rank[i] <= p.keepLastN && !Expired(st.snaps[i], p.cutoff)
  {
  }

  /** A row that survives beyond the quota is the HEAD of its device. */
  lemma SurvivorBeyondQuotaIsHead(st: Store, account: nat, p: Policy, rank: map<nat, nat>, h: nat)
    requires forall d :: HeadOk(st, d)
    requires rank.Keys == EligibleIds(st, account, p.keepLabeled)
    requires h in EligibleIds(st, account, p.keepLabeled) && h !in Chosen(st, account, p, rank) && rank[h] > p.keepLastN
    ensures st.snaps[h].device in st.heads && st.heads[st.snaps[h].device] == h
  {
    var d :| d in st.heads && st.heads[d] == h;
    assert HeadOk(st, d);
  }

  /** The second purge spares every HEAD too, so what it would choose is no HEAD. */
  lemma ChosenAgainIsNoHead(st: Store, account: nat, p: Policy, rank: map<nat, nat>, orphans: set<string>,
                            rank': map<nat, nat>, i: nat)
    requires forall d :: HeadOk(st, d)
    requires i in Chosen(Purge(st, account, p, rank, orphans), account, p, rank')
    ensures i in EligibleIds(st, account, p.keepLabeled) && i !in Chosen(st, account, p, rank)
    ensures forall d :: d in st.heads ==> st.heads[d] != i
  {
    var st' := Purge(st, account, p, rank, orphans);
    SurvivorsAreEligible(st, account, p, rank, orphans);
    forall d | d in st.heads ensures st.heads[d] != i {
      assert HeadOk(st, d);
      assert st'.heads == st.heads;
    }
  }

  /** What a second purge would choose has a full quota ahead of it, one of them from beyond the first quota. */
  lemma ChosenAgainIsBehind(st: Store, account: nat, p: Policy, rank: map<nat, nat>, orphans: set<string>,
                            rank': map<nat, nat>, i: nat)
    returns (h: nat)
    requires forall d :: HeadOk(st, d)
    requires IsRanking(st, EligibleIds(st, account, p.keepLabeled), rank)
    requires
      var st' := Purge(st, account, p, rank, orphans);
      && IsRanking(st', EligibleIds(st', account, p.keepLabeled), rank')
      && i in Chosen(st', account, p, rank')
    ensures
      var ids := EligibleIds(st, account, p.keepLabeled);
      && i in ids && h in ids && h != i && h !in Chosen(st, account, p, rank)
      && rank[i] <= p.keepLastN < rank[h]
      && st.snaps[h].device == st.snaps[i].device && st.snaps[i].createdAt <= st.snaps[h].createdAt
  {
    var ids := EligibleIds(st, account, p.keepLabeled);
    var st' := Purge(st, account, p, rank, orphans);
    var ids' := EligibleIds(st', account, p.keepLabeled);
    ChosenAgainIsNoHead(st, account, p, rank, orphans, rank', i);
    SurvivorIsRankedLow(st, account, p, rank, i);
    SurvivorsAreEligible(st, account, p, rank, orphans);
    forall j | j in ids' ensures SameRow(st, st', j) {
      PurgeKeepsRow(st, account, p, rank, orphans, j);
    }
    h := PushedOut(st, ids, rank, st', ids', rank', i, p.keepLastN);
  }

  /** A row that is within the quota of one numbering and beyond that of a later one has been passed by another. */
  lemma PushedOut(st: Store, ids: set<nat>, rank: map<nat, nat>, st': Store, ids': set<nat>, rank': map<nat, nat>,
                  i: nat, n: int)
    returns (h: nat)
    requires IsRanking(st, ids, rank) && IsRanking(st', ids', rank') && ids' <= ids
    requires forall j :: j in ids' ==> SameRow(st, st', j)
    requires i in ids' && rank[i] <= n < rank'[i]
    ensures h in ids' && h != i && rank[h] > n && NoOlder(st, h, i)
  {
    var ahead := Ahead(st', ids', rank', i);
    AheadIsNoOlder(st, st', ids', rank', i);
    DeviceRanksAreDistinct(st, ids, rank, ahead, i);
    h := FullQuotaReachesBeyond(rank, ahead, i, n);
  }

  /** Device and time of a row are the same in both stores. */
  predicate SameRow(st: Store, st': Store, i: nat) {
    && i in st.snaps && i in st'.snaps
    && st'.snaps[i].device == st.snaps[i].device && st'.snaps[i].createdAt == st.snaps[i].createdAt
  }

  lemma PurgeKeepsRow(st: Store, account: nat, p: Policy, rank: map<nat, nat>, orphans: set<string>, i: nat)
    requires i in Purge(st, account, p, rank, orphans).snaps
    ensures SameRow(st, Purge(st, account, p, rank, orphans), i)
  {
  }

  lemma AheadIsNoOlder(st: Store, st': Store, ids': set<nat>, rank': map<nat, nat>, i: nat)
    requires IsRanking(st', ids', rank') && i in ids' && forall j :: j in ids' ==> SameRow(st, st', j)
    ensures
      var ahead := Ahead(st', ids', rank', i);
      && i !in ahead && ahead <= ids' && |ahead| == rank'[i] - 1
      && forall j :: j in ahead ==> NoOlder(st, j, i)
  {
    assert SameRow(st, st', i);
    forall j | j in Ahead(st', ids', rank', i) ensures NoOlder(st, j, i) {
      assert !IsNewer(st'.snaps[i], st'.snaps[j]) && SameRow(st, st', j);
    }
  }

  predicate NoOlder(st: Store, j: nat, i: nat) {
    && j in st.snaps && i in st.snaps
    && st.snaps[j].device == st.snaps[i].device && st.snaps[j].createdAt >= st.snaps[i].createdAt
  }

  lemma LowerRankIsNoNewer(st: Store, ids: set<nat>, rank: map<nat, nat>, i: nat, h: nat)
    requires IsRanking(st, ids, rank) && i in ids && h in ids
    requires st.snaps[i].device == st.snaps[h].device && rank[i] < rank[h]
    ensures st.snaps[h].createdAt <= st.snaps[i].createdAt
  {
    assert !IsNewer(st.snaps[h], st.snaps[i]);
  }

  /** Rows of one device have distinct positive ranks. */
  ghost predicate DistinctRanks(rank: map<nat, nat>, ids: set<nat>) {
    && ids <= rank.Keys && (forall j :: j in ids ==> 1 <= rank[j])
    && (forall j, k :: j in ids && k in ids && j != k ==> rank[j] != rank[k])
  }

  lemma DeviceRanksAreDistinct(st: Store, ids: set<nat>, rank: map<nat, nat>, ahead: set<nat>, i: nat)
    requires ids <= st.snaps.Keys && ids <= rank.Keys && RanksDiffer(st, ids, rank)
    requires (forall j :: j in ids ==> 1 <= rank[j]) && i in ids && ahead <= ids
    requires forall j :: j in ahead ==> NoOlder(st, j, i)
    ensures DistinctRanks(rank, ahead + {i})
  {
  }

  // ------------------------------------------------------ the chunked delete

  const CHUNK := 500

  predicate Distinct(ids: seq<nat>) {
    forall i, j :: 0 <= i < j < |ids| ==> ids[i] != ids[j]
  }

  lemma {:induction false} DistinctCount(ids: seq<nat>)
    requires Distinct(ids)
    ensures |Members(ids)| == |ids|
  {
    if ids != [] {
      var init, last := ids[..|ids| - 1], ids[|ids| - 1];
      DistinctCount(init);
      assert Members(ids) == Members(init) + {last};
    }
  }

  function Without(snaps: map<nat, Snap>, doomed: set<nat>): map<nat, Snap> {
    map i | i in snaps && i !in doomed :: Orphaned(snaps[i], doomed)
  }

  /** Deleting in two goes is deleting at once. */
  lemma WithoutBoth(snaps: map<nat, Snap>, a: set<nat>, b: set<nat>)
    ensures Without(Without(snaps, a), b) == Without(snaps, a + b)
  {
  }

  /** The tables that the purge changes. */
  class SnapshotTable {
    var snaps: map<nat, Snap>
    var objects: map<string, Bytes>

    /** One DELETE ... WHERE id IN (batch), and its row count. */
    method DeleteIn(batch: set<nat>) returns (count: nat)
      modifies this`snaps
      ensures snaps == Without(old(snaps), batch)
      ensures count == |old(snaps).Keys * batch|
    {
      count := |snaps.Keys * batch|;
      snaps := map i | i in snaps && i !in batch :: Orphaned(snaps[i], batch);
    }

    /** Chunks of bounded size delete exactly the given rows and count them. */
    method DeleteChunked(ids: seq<nat>) returns (deleted: nat)
      requires Distinct(ids) && Members(ids) <= snaps.Keys
      modifies this`snaps
      ensures snaps == Without(old(snaps), Members(ids))
      ensures deleted == |ids|
    {
      deleted := 0;
      var i := 0;
      assert Members(ids[..0]) == {};
      assert Without(snaps, {}) == snaps;
      while i < |ids|
        invariant 0 <= i <= |ids|
        invariant snaps == Without(old(snaps), Members(ids[..i]))
        invariant deleted == i
      {
        var next := if i + CHUNK < |ids| then i + CHUNK else |ids|;
        var batch := ids[i..next];
        ChunkStep(ids, i, next);
        WithoutBoth(old(snaps), Members(ids[..i]), Members(batch));
        assert snaps.Keys * Members(batch) == Members(batch);
        var count := DeleteIn(Members(batch));
        deleted := deleted + count;
        i := next;
      }
      assert ids[..|ids|] == ids;
    }

    /**
     The purge: the database's ranking and the listing of the rows it selects are
     given; objects in `orphans` could not be deleted.
     */
    method PurgeAutoOlderThan(heads: map<string, nat>, keys: map<string, KeyRow>, account: nat, p: Policy,
                              rank: map<nat, nat>, listing: seq<nat>, orphans: set<string>) returns (deleted: nat)
      requires Distinct(listing) && Members(listing) == Chosen(Store(snaps, heads, keys, objects), account, p, rank)
      modifies this
      ensures Store(snaps, heads, keys, objects) ==
              Purge(old(Store(snaps, heads, keys, objects)), account, p, rank, orphans)
      ensures deleted == |Chosen(old(Store(snaps, heads, keys, objects)), account, p, rank)|
    {
      DistinctCount(listing);
      var doomed := Members(listing);
      var uris := set i | i in doomed && snaps[i].lanes.uri.Some? :: snaps[i].lanes.uri.value;
      assert uris == ChosenObjects(Store(snaps, heads, keys, objects), doomed);
      objects := objects - (uris - orphans);
      deleted := DeleteChunked(listing);
    }
  }

  lemma ChunkStep(ids: seq<nat>, i: nat, next: nat)
    requires Distinct(ids) && i <= next <= |ids|
    ensures Members(ids[..next]) == Members(ids[..i]) + Members(ids[i..next])
    ensures Members(ids[..i]) * Members(ids[i..next]) == {}
    ensures |Members(ids[i..next])| == next - i
  {
    assert ids[..next] == ids[..i] + ids[i..next];
    DistinctCount(ids[i..next]);
  }
}
