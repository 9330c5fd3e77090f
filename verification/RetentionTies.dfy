/**
 When a second purge at the same instant finds nothing (app/snapshots.py): the
 exact condition. The window function ranks rows with one timestamp in any order,
 and the two purges may order them differently. That matters only where the quota
 ends among the rows that share HEAD's timestamp.
 */
module RetentionTies {
  import opened Common
  import opened SnapshotStore
  import opened Retention

  function NewerThan(st: Store, ids: set<nat>, h: nat): set<nat>
    requires ids <= st.snaps.Keys && h in ids
  {
    set j | j in ids && IsNewer(st.snaps[j], st.snaps[h])
  }

  predicate Tied(s: Snap, t: Snap) {
    s.device == t.device && s.createdAt == t.createdAt
  }

  function TiedWith(st: Store, ids: set<nat>, h: nat): set<nat>
    requires ids <= st.snaps.Keys && h in ids
  {
    set j | j in ids && j != h && Tied(st.snaps[j], st.snaps[h])
  }

  /** The quota ends among the rows tied with `h`: it covers all newer rows, but not all of these. */
  ghost predicate QuotaCuts(st: Store, ids: set<nat>, p: Policy, h: nat) {
    && ids <= st.snaps.Keys && h in ids && !Expired(st.snaps[h], p.cutoff)
    && |NewerThan(st, ids, h)| < p.keepLastN <= |NewerThan(st, ids, h)| + |TiedWith(st, ids, h)|
  }

  /** Some device's eligible, unexpired HEAD is among tied rows that the quota cuts. */
  ghost predicate QuotaCutsAHead(st: Store, account: nat, p: Policy) {
    exists d :: d in st.heads && QuotaCuts(st, EligibleIds(st, account, p.keepLabeled), p, st.heads[d])
  }

  lemma SubsetIsSmaller(a: set<nat>, b: set<nat>)
    requires a <= b
    ensures |a| <= |b|
  {
    assert b == a + (b - a);
  }

  // ------------------------------------------- only a cut unsettles the purge

  /** Tied rows on either side of the quota: the quota cuts. */
  lemma CutBetween(st: Store, ids: set<nat>, rank: map<nat, nat>, i: nat, h: nat, n: int)
    requires IsRanking(st, ids, rank) && i in ids && h in ids && Tied(st.snaps[i], st.snaps[h])
    requires rank[i] <= n < rank[h]
    ensures |NewerThan(st, ids, h)| < n <= |NewerThan(st, ids, h)| + |TiedWith(st, ids, h)|
  {
    forall j | j in NewerThan(st, ids, h) ensures j in Ahead(st, ids, rank, i) {
      assert IsNewer(st.snaps[j], st.snaps[i]);
    }
    SubsetIsSmaller(NewerThan(st, ids, h), Ahead(st, ids, rank, i));
    forall j | j in Ahead(st, ids, rank, h) ensures j in NewerThan(st, ids, h) + TiedWith(st, ids, h) {
      assert !IsNewer(st.snaps[h], st.snaps[j]);
    }
    SubsetIsSmaller(Ahead(st, ids, rank, h), NewerThan(st, ids, h) + TiedWith(st, ids, h));
  }

  /** Whatever a second purge would choose, the quota cuts among the rows tied with HEAD. */
  lemma ChosenAgainMeansCut(st: Store, account: nat, p: Policy, rank: map<nat, nat>, orphans: set<string>,
                            rank': map<nat, nat>, i: nat)
    requires forall d :: HeadOk(st, d)
    requires IsRanking(st, EligibleIds(st, account, p.keepLabeled), rank)
    requires
      var st' := Purge(st, account, p, rank, orphans);
      && IsRanking(st', EligibleIds(st', account, p.keepLabeled), rank')
      && i in Chosen(st', account, p, rank')
    ensures QuotaCutsAHead(st, account, p)
  {
    var ids := EligibleIds(st, account, p.keepLabeled);
    ChosenAgainIsNoHead(st, account, p, rank, orphans, rank', i);
    SurvivorIsRankedLow(st, account, p, rank, i);
    var h := ChosenAgainIsBehind(st, account, p, rank, orphans, rank', i);
    SurvivorBeyondQuotaIsHead(st, account, p, rank, h);
    LowerRankIsNoNewer(st, ids, rank, i, h);
    CutBetween(st, ids, rank, i, h, p.keepLastN);
    assert QuotaCuts(st, ids, p, st.heads[st.snaps[h].device]);
  }

  // ------------------------------------------------ rankings that prefer a row

  /** Newest first; ties by a preference, then by id. */
  predicate Precedes(st: Store, pref: nat -> int, i: nat, j: nat)
    requires i in st.snaps && j in st.snaps
  {
    var s, t := st.snaps[i], st.snaps[j];
    IsNewer(s, t) || (Tied(s, t) && (pref(i) < pref(j) || (pref(i) == pref(j) && i < j)))
  }

  function Preceding(st: Store, ids: set<nat>, pref: nat -> int, i: nat): set<nat>
    requires ids <= st.snaps.Keys && i in ids
  {
    set j | j in ids && Precedes(st, pref, j, i)
  }

  function RankBy(st: Store, ids: set<nat>, pref: nat -> int): map<nat, nat>
    requires ids <= st.snaps.Keys
  {
    map i | i in ids :: |Preceding(st, ids, pref, i)| + 1
  }

  lemma RankByOrders(st: Store, ids: set<nat>, pref: nat -> int, i: nat, j: nat)
    requires ids <= st.snaps.Keys && i in ids && j in ids && Precedes(st, pref, i, j)
    ensures RankBy(st, ids, pref)[i] < RankBy(st, ids, pref)[j]
  {
    SubsetIsSmaller(Preceding(st, ids, pref, i) + {i}, Preceding(st, ids, pref, j));
  }

  lemma AheadIsPreceding(st: Store, ids: set<nat>, pref: nat -> int, i: nat)
    requires ids <= st.snaps.Keys && i in ids
    ensures Ahead(st, ids, RankBy(st, ids, pref), i) == Preceding(st, ids, pref, i)
  {
    forall j | j in ids && st.snaps[j].device == st.snaps[i].device
      ensures RankBy(st, ids, pref)[j] < RankBy(st, ids, pref)[i] <==> Precedes(st, pref, j, i)
    {
      if Precedes(st, pref, j, i) {
        RankByOrders(st, ids, pref, j, i);
      } else if j != i {
        RankByOrders(st, ids, pref, i, j);
      }
    }
  }

  /** Every preference among tied rows is a numbering the database may produce. */
  lemma RankByIsRanking(st: Store, ids: set<nat>, pref: nat -> int)
    requires ids <= st.snaps.Keys
    ensures IsRanking(st, ids, RankBy(st, ids, pref))
  {
    var rank := RankBy(st, ids, pref);
    forall i | i in ids ensures rank[i] == |Ahead(st, ids, rank, i)| + 1 {
      AheadIsPreceding(st, ids, pref, i);
    }
    forall i, j | i in ids && j in ids && i != j && st.snaps[i].device == st.snaps[j].device
      ensures rank[i] != rank[j]
    {
      if Precedes(st, pref, i, j) {
        RankByOrders(st, ids, pref, i, j);
      } else {
        RankByOrders(st, ids, pref, j, i);
      }
    }
    forall i, j | i in ids && j in ids && IsNewer(st.snaps[i], st.snaps[j]) ensures rank[i] < rank[j] {
      RankByOrders(st, ids, pref, i, j);
    }
  }

  // ----------------------------------------------- and every cut does unsettle it

  /** No number is skipped on the way to a row's rank. */
  lemma {:induction false} RankIsReached(st: Store, ids: set<nat>, rank: map<nat, nat>, h: nat, n: nat) returns (i: nat)
    requires IsRanking(st, ids, rank) && h in ids && 1 <= n <= rank[h]
    ensures i in ids && st.snaps[i].device == st.snaps[h].device && rank[i] == n
    decreases rank[h]
  {
    i := h;
    if rank[h] != n {
      var ahead := Ahead(st, ids, rank, h);
      if forall j :: j in ahead ==> rank[j] < n {
        FewRanks(ahead, rank, n - 1);
      }
      var j :| j in ahead && n <= rank[j];
      i := RankIsReached(st, ids, rank, j, n);
    }
  }

  function HeadLast(h: nat): nat -> int {
    i => if i == h then 1 else 0
  }

  function HeadFirst(h: nat): nat -> int {
    i => if i == h then -1 else 0
  }

  lemma HeadLastRank(st: Store, ids: set<nat>, h: nat)
    requires ids <= st.snaps.Keys && h in ids
    ensures RankBy(st, ids, HeadLast(h))[h] == |NewerThan(st, ids, h)| + |TiedWith(st, ids, h)| + 1
  {
    var newer, tied := NewerThan(st, ids, h), TiedWith(st, ids, h);
    assert Preceding(st, ids, HeadLast(h), h) == newer + tied;
    assert newer * tied == {};
  }

  lemma NewerRowsRankLow(st: Store, ids: set<nat>, pref: nat -> int, h: nat, i: nat)
    requires ids <= st.snaps.Keys && h in ids && i in NewerThan(st, ids, h)
    ensures RankBy(st, ids, pref)[i] <= |NewerThan(st, ids, h)|
  {
    SubsetIsSmaller(Preceding(st, ids, pref, i) + {i}, NewerThan(st, ids, h));
  }

  /** With HEAD last among its ties, a row tied with it takes the last place of the quota. */
  lemma LastPlaceIsTied(st: Store, ids: set<nat>, p: Policy, h: nat) returns (i: nat)
    requires QuotaCuts(st, ids, p, h)
    ensures i in ids && i != h && Tied(st.snaps[i], st.snaps[h])
    ensures RankBy(st, ids, HeadLast(h))[i] == p.keepLastN
  {
    var rank := RankBy(st, ids, HeadLast(h));
    RankByIsRanking(st, ids, HeadLast(h));
    HeadLastRank(st, ids, h);
    i := RankIsReached(st, ids, rank, h, p.keepLastN);
    assert !IsNewer(st.snaps[h], st.snaps[i]);
    if IsNewer(st.snaps[i], st.snaps[h]) {
      NewerRowsRankLow(st, ids, HeadLast(h), h, i);
    }
  }

  /** What precedes a row within the quota, no older than an unexpired row, survives the purge, and so does HEAD. */
  lemma QuotaSurvives(st: Store, account: nat, p: Policy, orphans: set<string>, h: nat, i: nat, j: nat)
    requires QuotaCuts(st, EligibleIds(st, account, p.keepLabeled), p, h) && h in SparedHeads(st, account)
    requires
      var ids := EligibleIds(st, account, p.keepLabeled);
      && i in ids && Tied(st.snaps[i], st.snaps[h]) && RankBy(st, ids, HeadLast(h))[i] <= p.keepLastN
      && j in Preceding(st, ids, HeadLast(h), i) + {h, i}
    ensures
      var st' := Purge(st, account, p, RankBy(st, EligibleIds(st, account, p.keepLabeled), HeadLast(h)), orphans);
      j in EligibleIds(st', account, p.keepLabeled) && SameRow(st, st', j)
  {
    var rank := RankBy(st, EligibleIds(st, account, p.keepLabeled), HeadLast(h));
    QuotaIsSpared(st, account, p, h, i, j);
    SurvivorsAreEligible(st, account, p, rank, orphans);
    PurgeKeepsRow(st, account, p, rank, orphans, j);
  }

  lemma QuotaIsSpared(st: Store, account: nat, p: Policy, h: nat, i: nat, j: nat)
    requires QuotaCuts(st, EligibleIds(st, account, p.keepLabeled), p, h) && h in SparedHeads(st, account)
    requires
      var ids := EligibleIds(st, account, p.keepLabeled);
      && i in ids && Tied(st.snaps[i], st.snaps[h]) && RankBy(st, ids, HeadLast(h))[i] <= p.keepLastN
      && j in Preceding(st, ids, HeadLast(h), i) + {h, i}
    ensures
      var ids := EligibleIds(st, account, p.keepLabeled);
      j in ids && j !in Chosen(st, account, p, RankBy(st, ids, HeadLast(h)))
  {
    var ids := EligibleIds(st, account, p.keepLabeled);
    if j in Preceding(st, ids, HeadLast(h), i) {
      RankByOrders(st, ids, HeadLast(h), j, i);
    }
  }

  lemma OneMoreBefore(st: Store, ids: set<nat>, pref: nat -> int, st': Store, ids': set<nat>, pref': nat -> int,
                      h: nat, i: nat)
    requires ids <= st.snaps.Keys && i in ids && ids' <= st'.snaps.Keys && i in ids'
    requires h !in Preceding(st, ids, pref, i)
    requires Preceding(st, ids, pref, i) + {h} <= Preceding(st', ids', pref', i)
    ensures RankBy(st', ids', pref')[i] > RankBy(st, ids, pref)[i]
  {
    SubsetIsSmaller(Preceding(st, ids, pref, i) + {h}, Preceding(st', ids', pref', i));
  }

  /** With HEAD first among its ties, all that preceded a tied row still do, and HEAD as well: it loses its place. */
  lemma PlaceIsLost(st: Store, ids: set<nat>, st': Store, ids': set<nat>, h: nat, i: nat)
    requires ids <= st.snaps.Keys && ids' <= st'.snaps.Keys && i in ids && h in ids
    requires i != h && Tied(st.snaps[i], st.snaps[h])
    requires forall j :: j in Preceding(st, ids, HeadLast(h), i) + {h, i} ==> j in ids' && SameRow(st, st', j)
    ensures i in ids' && RankBy(st', ids', HeadFirst(h))[i] > RankBy(st, ids, HeadLast(h))[i]
  {
    var before := Preceding(st, ids, HeadLast(h), i);
    assert i in before + {h, i} && h in before + {h, i};
    forall j | j in before + {h} ensures j in Preceding(st', ids', HeadFirst(h), i) {
      assert j in before + {h, i};
    }
    OneMoreBefore(st, ids, HeadLast(h), st', ids', HeadFirst(h), h, i);
  }

  /** Two numberings under which a second purge deletes a row. */
  lemma CutUnsettles(st: Store, account: nat, p: Policy, orphans: set<string>)
    returns (rank: map<nat, nat>, rank': map<nat, nat>)
    requires (forall d :: HeadOk(st, d)) && QuotaCutsAHead(st, account, p)
    ensures TwoRankings(st, account, p, orphans, rank, rank')
    ensures Chosen(Purge(st, account, p, rank, orphans), account, p, rank') != {}
  {
    var ids := EligibleIds(st, account, p.keepLabeled);
    var d :| d in st.heads && QuotaCuts(st, ids, p, st.heads[d]);
    var h := st.heads[d];
    assert HeadOk(st, d);
    var i := LastPlaceIsTied(st, ids, p, h);
    rank := RankBy(st, ids, HeadLast(h));
    var st' := Purge(st, account, p, rank, orphans);
    var ids' := EligibleIds(st', account, p.keepLabeled);
    rank' := RankBy(st', ids', HeadFirst(h));
    RankByIsRanking(st, ids, HeadLast(h));
    RankByIsRanking(st', ids', HeadFirst(h));
    forall j | j in Preceding(st, ids, HeadLast(h), i) + {h, i} ensures j in ids' && SameRow(st, st', j) {
      QuotaSurvives(st, account, p, orphans, h, i, j);
    }
    PlaceIsLost(st, ids, st', ids', h, i);
    NoHeadIsChosenByRank(st, account, p, rank, orphans, rank', h, i);
  }

  /** After a purge, an eligible row beyond the quota is chosen, unless it is HEAD. */
  lemma NoHeadIsChosenByRank(st: Store, account: nat, p: Policy, rank: map<nat, nat>, orphans: set<string>,
                             rank': map<nat, nat>, h: nat, i: nat)
    requires forall d :: HeadOk(st, d)
    requires i in st.snaps && i != h && st.snaps[i].device in st.heads && st.heads[st.snaps[i].device] == h
    requires i in EligibleIds(Purge(st, account, p, rank, orphans), account, p.keepLabeled)
    requires i in rank' && rank'[i] > p.keepLastN
    ensures i in Chosen(Purge(st, account, p, rank, orphans), account, p, rank')
  {
    var st' := Purge(st, account, p, rank, orphans);
    forall e | e in st'.heads ensures st'.heads[e] != i {
      assert HeadOk(st, e);
    }
  }

  /** A numbering for a purge, and one for a purge right after it. */
  ghost predicate TwoRankings(st: Store, account: nat, p: Policy, orphans: set<string>, rank: map<nat, nat>,
                              rank': map<nat, nat>) {
    var st' := Purge(st, account, p, rank, orphans);
    && IsRanking(st, EligibleIds(st, account, p.keepLabeled), rank)
    && IsRanking(st', EligibleIds(st', account, p.keepLabeled), rank')
  }

  /** A second purge at the same instant deletes nothing, whatever the tie-breaking of either. */
  ghost predicate SecondPurgeIsQuiet(st: Store, account: nat, p: Policy, orphans: set<string>) {
    forall rank, rank' :: TwoRankings(st, account, p, orphans, rank, rank') ==>
      Chosen(Purge(st, account, p, rank, orphans), account, p, rank') == {}
  }

  /** The second purge is quiet if and only if the quota cuts no HEAD's tied rows. */
  lemma SecondPurgeIsQuietExactly(st: Store, account: nat, p: Policy, orphans: set<string>)
    requires forall d :: HeadOk(st, d)
    ensures SecondPurgeIsQuiet(st, account, p, orphans) <==> !QuotaCutsAHead(st, account, p)
  {
    if QuotaCutsAHead(st, account, p) {
      var rank, rank' := CutUnsettles(st, account, p, orphans);
    } else {
      forall rank, rank' | TwoRankings(st, account, p, orphans, rank, rank')
        ensures Chosen(Purge(st, account, p, rank, orphans), account, p, rank') == {}
      {
        if i :| i in Chosen(Purge(st, account, p, rank, orphans), account, p, rank') {
          ChosenAgainMeansCut(st, account, p, rank, orphans, rank', i);
        }
      }
    }
  }

  /** With distinct timestamps on each device it always is. */
  lemma DistinctTimesAreQuiet(st: Store, account: nat, p: Policy, orphans: set<string>)
    requires forall d :: HeadOk(st, d)
    requires forall i, j :: i in st.snaps && j in st.snaps && i != j ==> !Tied(st.snaps[i], st.snaps[j])
    ensures SecondPurgeIsQuiet(st, account, p, orphans)
  {
    var ids := EligibleIds(st, account, p.keepLabeled);
    forall d | d in st.heads ensures !QuotaCuts(st, ids, p, st.heads[d]) {
      if st.heads[d] in ids {
        assert TiedWith(st, ids, st.heads[d]) == {};
      }
    }
    SecondPurgeIsQuietExactly(st, account, p, orphans);
  }

  /** Two rows of one device at one time; the first is its HEAD. */
  function Pair(s: Snap): Store {
    Store(map[1 := s, 2 := s], map[s.device := 1], map[], map[])
  }

  /** A quota of one is not: two tied rows, one of them HEAD, are enough. */
  lemma TiedHeadUnsettlesThePurge(s: Snap, orphans: set<string>)
    requires Eligible(s, 1, true)
    ensures !SecondPurgeIsQuiet(Pair(s), 1, Policy(1, None, true), orphans)
  {
    var st, p := Pair(s), Policy(1, None, true);
    var ids := EligibleIds(st, 1, true);
    assert ids == {1, 2} && NewerThan(st, ids, 1) == {} && TiedWith(st, ids, 1) == {2};
    assert st.heads[s.device] == 1 && QuotaCuts(st, ids, p, st.heads[s.device]);
    SecondPurgeIsQuietExactly(st, 1, p, orphans);
  }
}
