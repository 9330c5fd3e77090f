/**
 The per-push rollback store (app/api_sync_snapshots.py, app/api_sync.py): every
 push first saves the payload it overwrites, then deletes all but the ten newest
 saved rows of that account and device.
 */
module SyncRotation {
  import opened Common

  const KEEP_PER_DEVICE := 10

  datatype Json = Atom(text: string) | Items(items: seq<Json>) | Fields(fields: map<string, Json>)

  /** A config document by its top-level entries; an empty one is not worth saving. */
  type Payload = map<string, Json>

  /** Whose rollback rows: those of one account for one device. */
  datatype Trail = Trail(device: string, account: nat)

  datatype Row = Row(trail: Trail, createdAt: Time, payload: Payload)

  /** What the device list shows without opening the document. */
  datatype Meta = Meta(name: Option<Json>, sites: Option<nat>, os: Option<Json>, arch: Option<Json>)

  datatype Device = Device(owner: Option<nat>, payload: Payload, meta: Meta)

  datatype Tables = Tables(devices: map<string, Device>, rows: map<nat, Row>)

  function Mine(rows: map<nat, Row>, trail: Trail): set<nat> {
    set i | i in rows && rows[i].trail == trail
  }

  predicate NewestFirst(rows: map<nat, Row>, order: seq<nat>) {
    && (forall i :: 0 <= i < |order| ==> order[i] in rows)
    && (forall i, j :: 0 <= i < j < |order| ==>
          order[i] != order[j] && rows[order[i]].createdAt >= rows[order[j]].createdAt)
  }

  /** What ORDER BY created_at DESC may return for one account and device. */
  predicate IsListing(rows: map<nat, Row>, trail: Trail, order: seq<nat>) {
    Members(order) == Mine(rows, trail) && NewestFirst(rows, order)
  }

  function Overdue(order: seq<nat>): seq<nat> {
    if |order| > KEEP_PER_DEVICE then order[KEEP_PER_DEVICE..] else []
  }

  // ---------------------------------------------------------------- one push

  /**
   A push, with what the environment chooses for it: an unused id, the clock, the
   listing the rotation sees, and whether making the copy of the old payload raises,
   in which case the push goes on without one.
   */
  datatype Push = Push(trail: Trail, body: Payload, id: nat, now: Time, order: seq<nat>, copyFails: bool)

  /** The device is linked to another account. */
  predicate Foreign(t: Tables, trail: Trail) {
    && trail.device in t.devices && t.devices[trail.device].owner.Some?
    && t.devices[trail.device].owner.value != trail.account
  }

  /** The push goes through and keeps a copy of the payload it overwrites. */
  predicate Saves(t: Tables, p: Push) {
    && !Foreign(t, p.trail)
    && p.trail.device in t.devices && t.devices[p.trail.device].payload != map[] && !p.copyFails
  }

  const NO_META := Meta(None, None, None, None)

  /** The fields of an entry of the document, if it is there and has fields. */
  function FieldsOf(p: map<string, Json>, key: string): Option<map<string, Json>> {
    if key in p && p[key].Fields? then Some(p[key].fields) else None
  }

  function Get(p: map<string, Json>, key: string): Option<Json> {
    if key in p then Some(p[key]) else None
  }

  /** The metadata after a push: what the document does not mention stays as it was. */
  function Described(m: Meta, p: Payload): Meta {
    var settings, system := FieldsOf(p, "settings"), FieldsOf(p, "system");
    var os := if system.Some? then FieldsOf(system.value, "os") else None;
    var name := if settings.Some? then Get(settings.value, "sync.deviceName") else None;
    Meta(if name.Some? then name else m.name,
         if "sites" in p && p["sites"].Items? then Some(|p["sites"].items|) else m.sites,
         if os.Some? then Get(os.value, "tag") else m.os,
         if os.Some? then Get(os.value, "arch") else m.arch)
  }

  function MetaOf(t: Tables, device: string): Meta {
    if device in t.devices then t.devices[device].meta else NO_META
  }

  /** The copy a push keeps. */
  function Copy(t: Tables, p: Push): Saved
    requires Saves(t, p)
  {
    Saved(p.id, p.now, t.devices[p.trail.device].payload)
  }

  function WithSaved(rows: map<nat, Row>, trail: Trail, s: Saved): map<nat, Row> {
    rows[s.id := Row(trail, s.at, s.payload)]
  }

  ghost predicate Fits(t: Tables, p: Push) {
    p.id !in t.rows && (Saves(t, p) ==> IsListing(WithSaved(t.rows, p.trail, Copy(t, p)), p.trail, p.order))
  }

  function PushedRows(t: Tables, p: Push): map<nat, Row> {
    if Saves(t, p) then WithSaved(t.rows, p.trail, Copy(t, p)) - Members(Overdue(p.order)) else t.rows
  }

  function Pushed(t: Tables, p: Push): Tables {
    var device := p.trail.device;
    if Foreign(t, p.trail) then t
    else
      Tables(t.devices[device := Device(Some(p.trail.account), p.body, Described(MetaOf(t, device), p.body))],
             PushedRows(t, p))
  }

  /** The two tables, changed in place. */
  class SyncDb {
    var devices: map<string, Device>
    var rows: map<nat, Row>

    method Rotate(order: seq<nat>)
      modifies this`rows
      ensures rows == old(rows) - Members(Overdue(order))
    {
      var overdue := Overdue(order);
      var i := 0;
      while i < |overdue|
        invariant 0 <= i <= |overdue|
        invariant rows == old(rows) - Members(overdue[..i])
      {
        if overdue[i] in rows {
          rows := rows - {overdue[i]};
        }
        assert Members(overdue[..i + 1]) == Members(overdue[..i]) + {overdue[i]};
        i := i + 1;
      }
      assert overdue[..|overdue|] == overdue;
    }

    /** `false` answers a push to another account's device. */
    method UpsertConfig(p: Push) returns (ok: bool)
      modifies this
      ensures ok <==> !Foreign(old(Tables(devices, rows)), p.trail)
      ensures Tables(devices, rows) == Pushed(old(Tables(devices, rows)), p)
    {
      var device, account := p.trail.device, p.trail.account;
      ok := !(device in devices && devices[device].owner.Some? && devices[device].owner.value != account);
      if !ok {
        return;
      }
      if device in devices && devices[device].payload != map[] && !p.copyFails {
        rows := rows[p.id := Row(p.trail, p.now, devices[device].payload)];
        Rotate(p.order);
      }
      var row := Device(None, p.body, NO_META);
      if device in devices {
        row := devices[device].(payload := p.body);
      }
      if row.owner.None? {
        row := row.(owner := Some(account));
      }
      var meta := Describe(row.meta, p.body);
      devices := devices[device := row.(meta := meta)];
    }

    /** The metadata columns, one after the other. */
    method Describe(m: Meta, p: Payload) returns (meta: Meta)
      ensures meta == Described(m, p)
    {
      meta := m;
      if "settings" in p && p["settings"].Fields? {
        var settings := p["settings"].fields;
        if "sync.deviceName" in settings {
          meta := meta.(name := Some(settings["sync.deviceName"]));
        }
      }
      if "sites" in p && p["sites"].Items? {
        meta := meta.(sites := Some(|p["sites"].items|));
      }
      if "system" in p && p["system"].Fields? {
        var system := p["system"].fields;
        if "os" in system && system["os"].Fields? {
          meta := meta.(os := Get(system["os"].fields, "tag"), arch := Get(system["os"].fields, "arch"));
        }
      }
    }
  }

  /** A push to another account's device changes nothing; any other leaves the document and the device linked. */
  lemma PushIsExact(t: Tables, p: Push)
    ensures
      var t', device, account := Pushed(t, p), p.trail.device, p.trail.account;
      var refused := device in t.devices && t.devices[device].owner.Some? && t.devices[device].owner.value != account;
      && (refused ==> t' == t)
      && (!refused ==>
            device in t'.devices && t'.devices[device].payload == p.body && t'.devices[device].owner == Some(account))
      && (forall e :: e != device ==>
            (e in t'.devices <==> e in t.devices) && (e in t.devices ==> t'.devices[e] == t.devices[e]))
  {
  }

  /** A saving push stores the payload it displaces, under its own id and time, for its account and device. */
  lemma CopyIsExact(t: Tables, p: Push)
    requires Saves(t, p) && p.id !in Overdue(p.order)
    ensures
      var rows := PushedRows(t, p);
      && p.id in rows && rows[p.id].payload == t.devices[p.trail.device].payload && rows[p.id].payload != map[]
      && rows[p.id].createdAt == p.now && rows[p.id].trail == p.trail
  {
  }

  /** Each metadata column follows the document where it says something, and else stays as it was. */
  lemma MetadataIsExact(m: Meta, p: Payload)
    ensures
      var m' := Described(m, p);
      && ("settings" in p && p["settings"].Fields? && "sync.deviceName" in p["settings"].fields ==>
            m'.name == Some(p["settings"].fields["sync.deviceName"]))
      && (!("settings" in p && p["settings"].Fields? && "sync.deviceName" in p["settings"].fields) ==>
            m'.name == m.name)
      && ("sites" in p && p["sites"].Items? ==> m'.sites == Some(|p["sites"].items|))
      && (!("sites" in p && p["sites"].Items?) ==> m'.sites == m.sites)
      && (if "system" in p && p["system"].Fields? && "os" in p["system"].fields && p["system"].fields["os"].Fields? then
            var os := p["system"].fields["os"].fields;
            && m'.os == (if "tag" in os then Some(os["tag"]) else None)
            && m'.arch == (if "arch" in os then Some(os["arch"]) else None)
          else m'.os == m.os && m'.arch == m.arch)
  {
  }

  // -------------------------------------------------------------- whole runs

  function After(t: Tables, run: seq<Push>): Tables {
    if run == [] then t else Pushed(After(t, run[..|run| - 1]), run[|run| - 1])
  }

  /** A payload that a push overwrote, with the row made for it. */
  datatype Saved = Saved(id: nat, at: Time, payload: Payload)

  /** Every non-empty payload that the account's pushes to the device overwrote and could copy, oldest first. */
  function Overwritten(t: Tables, trail: Trail, run: seq<Push>): seq<Saved> {
    if run == [] then []
    else
      var before, p := After(t, run[..|run| - 1]), run[|run| - 1];
      Overwritten(t, trail, run[..|run| - 1]) + Kept(before, trail, p)
  }

  /** The copy that a push keeps for this account and device, if any. */
  function Kept(t: Tables, trail: Trail, p: Push): seq<Saved> {
    if p.trail == trail && Saves(t, p) then [Copy(t, p)] else []
  }

  /** The environment's choices fit, and the times of one account's pushes to one device increase. */
  ghost predicate Legal(t: Tables, run: seq<Push>) {
    run == [] ||
    (&& Legal(t, run[..|run| - 1]) && Fits(After(t, run[..|run| - 1]), run[|run| - 1])
     && forall i :: 0 <= i < |run| - 1 && run[i].trail == run[|run| - 1].trail ==> run[i].now < run[|run| - 1].now)
  }

  /** The last ten. */
  function Recent(h: seq<Saved>): seq<Saved> {
    if |h| > KEEP_PER_DEVICE then h[|h| - KEEP_PER_DEVICE..] else h
  }

  function Ids(h: seq<Saved>): seq<nat> {
    seq(|h|, i requires 0 <= i < |h| => h[|h| - 1 - i].id)
  }

  /** The table holds exactly these payloads for the account and device. */
  ghost predicate Holds(rows: map<nat, Row>, trail: Trail, h: seq<Saved>) {
    && Members(Ids(h)) == Mine(rows, trail)
    && (forall i :: 0 <= i < |h| ==> h[i].id in rows && rows[h[i].id] == Row(trail, h[i].at, h[i].payload))
    && (forall i, j :: 0 <= i < j < |h| ==> h[i].at < h[j].at)
  }

  /** Two newest-first enumerations of one set with distinct times are the same. */
  lemma {:induction false} ListingIsUnique(rows: map<nat, Row>, a: seq<nat>, b: seq<nat>)
    requires NewestFirst(rows, a) && NewestFirst(rows, b) && Members(a) == Members(b)
    requires forall i, j :: 0 <= i < j < |b| ==> rows[b[i]].createdAt > rows[b[j]].createdAt
    ensures a == b
  {
    assert a != [] ==> a[0] in Members(a);
    if b != [] {
      assert b[0] in Members(a) && a != [];
      assert a[0] in Members(b);
      var i :| 0 <= i < |a| && a[i] == b[0];
      var j :| 0 <= j < |b| && b[j] == a[0];
      assert a[0] == b[0];
      assert Members(a[1..]) == Members(a) - {a[0]};
      assert Members(b[1..]) == Members(b) - {b[0]};
      ListingIsUnique(rows, a[1..], b[1..]);
    }
  }

  lemma IdsAreMembers(h: seq<Saved>, n: nat)
    ensures n in Members(Ids(h)) <==> exists i :: 0 <= i < |h| && h[i].id == n
  {
    if i :| 0 <= i < |h| && h[i].id == n {
      assert Ids(h)[|h| - 1 - i] == n;
    }
  }

  /** Saving a newer row extends what the table holds. */
  lemma HoldsAppend(rows: map<nat, Row>, trail: Trail, g: seq<Saved>, s: Saved)
    requires Holds(rows, trail, g) && s.id !in rows
    requires forall i :: 0 <= i < |g| ==> g[i].at < s.at
    ensures Holds(WithSaved(rows, trail, s), trail, g + [s])
  {
    var rows', g' := WithSaved(rows, trail, s), g + [s];
    forall n ensures n in Members(Ids(g')) <==> n in Mine(rows', trail) {
      IdsAreMembers(g, n);
      IdsAreMembers(g', n);
      assert (exists i :: 0 <= i < |g'| && g'[i].id == n) <==>
             n == s.id || exists i :: 0 <= i < |g| && g[i].id == n by {
        if i :| 0 <= i < |g| && g[i].id == n {
          assert g'[i].id == n;
        }
        assert g'[|g|] == s;
      }
    }
  }

  /** Deleting the oldest row leaves the rest. */
  lemma HoldsDrop(rows: map<nat, Row>, trail: Trail, g: seq<Saved>)
    requires Holds(rows, trail, g) && g != []
    ensures Holds(rows - {g[0].id}, trail, g[1..])
  {
    var rows', g' := rows - {g[0].id}, g[1..];
    assert forall i :: 0 <= i < |g'| ==> g'[i] == g[i + 1];
    forall n ensures n in Members(Ids(g')) <==> n in Mine(rows', trail) {
      IdsAreMembers(g, n);
      IdsAreMembers(g', n);
      if i :| 0 <= i < |g| && g[i].id == n && n != g[0].id {
        assert g'[i - 1].id == n;
      }
    }
  }

  /** The only listing of a table that holds `g` is `g`, newest first. */
  lemma ListingOfHeld(rows: map<nat, Row>, trail: Trail, g: seq<Saved>, order: seq<nat>)
    requires Holds(rows, trail, g) && IsListing(rows, trail, order)
    ensures order == Ids(g)
  {
    ListingIsUnique(rows, order, Ids(g));
  }

  lemma RecentSnoc(h: seq<Saved>, s: Saved)
    ensures Recent(h + [s]) == if |Recent(h)| == KEEP_PER_DEVICE then Recent(h)[1..] + [s] else Recent(h) + [s]
  {
  }

  /** Rotating a table that holds one row too many drops the oldest. */
  lemma RotateFull(rows: map<nat, Row>, trail: Trail, g: seq<Saved>)
    requires Holds(rows, trail, g) && |g| == KEEP_PER_DEVICE + 1
    ensures Holds(rows - Members(Overdue(Ids(g))), trail, g[1..])
  {
    assert Overdue(Ids(g)) == [g[0].id];
    assert Members([g[0].id]) == {g[0].id};
    HoldsDrop(rows, trail, g);
  }

  /** And otherwise nothing. */
  lemma RotateRoomy(rows: map<nat, Row>, g: seq<Saved>)
    requires |g| <= KEEP_PER_DEVICE
    ensures rows - Members(Overdue(Ids(g))) == rows
  {
    assert Members([]) == {};
  }

  /** One saving push: the listing is forced, so the rotation drops the oldest row of eleven and nothing else. */
  lemma PushHolds(t: Tables, h: seq<Saved>, p: Push)
    requires Holds(t.rows, p.trail, Recent(h)) && Saves(t, p) && Fits(t, p)
    requires forall i :: 0 <= i < |Recent(h)| ==> Recent(h)[i].at < p.now
    ensures Holds(PushedRows(t, p), p.trail, Recent(h + [Copy(t, p)]))
  {
    var s := Copy(t, p);
    var rows, g := WithSaved(t.rows, p.trail, s), Recent(h) + [s];
    HoldsAppend(t.rows, p.trail, Recent(h), s);
    ListingOfHeld(rows, p.trail, g, p.order);
    RecentSnoc(h, s);
    if |Recent(h)| == KEEP_PER_DEVICE {
      RotateFull(rows, p.trail, g);
      assert g[1..] == Recent(h)[1..] + [s];
    } else {
      RotateRoomy(rows, g);
    }
  }

  /** A push touches no row of another account or device, and makes none for them. */
  lemma OtherRowStays(t: Tables, p: Push, i: nat)
    requires Fits(t, p)
    ensures i in t.rows && t.rows[i].trail != p.trail ==> i in PushedRows(t, p) && PushedRows(t, p)[i] == t.rows[i]
    ensures i in PushedRows(t, p) && PushedRows(t, p)[i].trail != p.trail ==> i in t.rows
  {
    if Saves(t, p) {
      var rows := WithSaved(t.rows, p.trail, Copy(t, p));
      assert Members(Overdue(p.order)) <= Members(p.order);
      assert Members(p.order) == Mine(rows, p.trail);
    }
  }

  lemma OthersKeepHolds(t: Tables, p: Push, trail: Trail, g: seq<Saved>)
    requires Holds(t.rows, trail, g) && Fits(t, p) && p.trail != trail
    ensures Holds(PushedRows(t, p), trail, g)
  {
    forall i
      ensures i in Mine(PushedRows(t, p), trail) <==> i in Mine(t.rows, trail)
      ensures i in Mine(t.rows, trail) ==> PushedRows(t, p)[i] == t.rows[i]
    {
      OtherRowStays(t, p, i);
    }
  }

  /** The time of a copy, from the history before the run or from a push of the run. */
  ghost predicate IsDated(s: Saved, h0: seq<Saved>, trail: Trail, run: seq<Push>) {
    s in Recent(h0) || exists i :: 0 <= i < |run| && run[i].trail == trail && run[i].now == s.at
  }

  /** The account's pushes to the device all come after what was saved before. */
  ghost predicate ComesAfter(h0: seq<Saved>, trail: Trail, run: seq<Push>) {
    forall s, i :: s in Recent(h0) && 0 <= i < |run| && run[i].trail == trail ==> s.at < run[i].now
  }

  lemma {:induction false} CopiesAreDated(t: Tables, h0: seq<Saved>, trail: Trail, run: seq<Push>)
    ensures forall s :: s in Recent(h0 + Overwritten(t, trail, run)) ==> IsDated(s, h0, trail, run)
  {
    if run == [] {
      assert h0 + [] == h0;
    } else {
      var init, p := run[..|run| - 1], run[|run| - 1];
      var h, h' := h0 + Overwritten(t, trail, init), h0 + Overwritten(t, trail, run);
      CopiesAreDated(t, h0, trail, init);
      forall s | IsDated(s, h0, trail, init) ensures IsDated(s, h0, trail, run) {
        if i :| 0 <= i < |init| && init[i].trail == trail && init[i].now == s.at {
          assert run[i] == init[i];
        }
      }
      if p.trail == trail && Saves(After(t, init), p) {
        var s := Copy(After(t, init), p);
        assert h' == h + [s];
        RecentSnoc(h, s);
        assert run[|run| - 1].now == s.at;
      } else {
        assert h' == h;
      }
    }
  }

  /** Everything saved so far is older than the run's next push. */
  lemma SavedIsOlder(t: Tables, h0: seq<Saved>, run: seq<Push>)
    requires run != [] && Legal(t, run) && ComesAfter(h0, run[|run| - 1].trail, run)
    ensures
      var p := run[|run| - 1];
      forall s :: s in Recent(h0 + Overwritten(t, p.trail, run[..|run| - 1])) ==> s.at < p.now
  {
    var init, p := run[..|run| - 1], run[|run| - 1];
    CopiesAreDated(t, h0, p.trail, init);
    forall s | s in Recent(h0 + Overwritten(t, p.trail, init)) ensures s.at < p.now {
      assert IsDated(s, h0, p.trail, init);
      if i :| 0 <= i < |init| && init[i].trail == p.trail && init[i].now == s.at {
        assert run[i] == init[i];
      }
    }
  }

  lemma {:induction false} RunHolds(t: Tables, h0: seq<Saved>, trail: Trail, run: seq<Push>)
    requires Holds(t.rows, trail, Recent(h0)) && Legal(t, run) && ComesAfter(h0, trail, run)
    ensures Holds(After(t, run).rows, trail, Recent(h0 + Overwritten(t, trail, run)))
  {
    if run == [] {
      assert h0 + [] == h0;
    } else {
      var init, p := run[..|run| - 1], run[|run| - 1];
      assert forall i :: 0 <= i < |init| ==> init[i] == run[i];
      RunHolds(t, h0, trail, init);
      var before, h := After(t, init), h0 + Overwritten(t, trail, init);
      if p.trail == trail {
        SavedIsOlder(t, h0, run);
      }
      OnePushHolds(before, h, trail, p);
      HistoryGrows(t, h0, trail, run);
    }
  }

  lemma HistoryGrows(t: Tables, h0: seq<Saved>, trail: Trail, run: seq<Push>)
    requires run != []
    ensures
      var init := run[..|run| - 1];
      h0 + Overwritten(t, trail, run) == h0 + Overwritten(t, trail, init) + Kept(After(t, init), trail, run[|run| - 1])
  {
  }

  lemma OnePushHolds(t: Tables, h: seq<Saved>, trail: Trail, p: Push)
    requires Holds(t.rows, trail, Recent(h)) && Fits(t, p)
    requires p.trail == trail ==> forall s :: s in Recent(h) ==> s.at < p.now
    ensures Holds(Pushed(t, p).rows, trail, Recent(h + Kept(t, trail, p)))
  {
    if p.trail == trail && Saves(t, p) {
      PushHolds(t, h, p);
    } else {
      assert h + [] == h;
      if p.trail != trail {
        OthersKeepHolds(t, p, trail, Recent(h));
      }
    }
  }

  /**
   In every run of pushes by any accounts to any devices, from any rows that hold the
   end of an earlier history, the rollback rows of an account and a device are exactly
   the last ten non-empty payloads that its pushes overwrote and copied: listed newest
   first, the i-th is the i-th most recent.
   */
  lemma RollbackRowsAreTheLastTen(t: Tables, h0: seq<Saved>, trail: Trail, run: seq<Push>, order: seq<nat>)
    requires Holds(t.rows, trail, Recent(h0)) && Legal(t, run) && ComesAfter(h0, trail, run)
    requires IsListing(After(t, run).rows, trail, order)
    ensures AreLastTen(After(t, run).rows, order, h0 + Overwritten(t, trail, run))
  {
    RunHolds(t, h0, trail, run);
    ListingOfRecent(After(t, run).rows, trail, h0 + Overwritten(t, trail, run), order);
  }

  /** The rows in this order hold the last ten payloads of the history, or all of fewer, newest first. */
  ghost predicate AreLastTen(rows: map<nat, Row>, order: seq<nat>, h: seq<Saved>) {
    && |order| == (if |h| < 10 then |h| else 10)
    && (forall i :: 0 <= i < |order| ==> order[i] in rows && rows[order[i]].payload == h[|h| - 1 - i].payload)
  }

  lemma ListingOfRecent(rows: map<nat, Row>, trail: Trail, h: seq<Saved>, order: seq<nat>)
    requires Holds(rows, trail, Recent(h)) && IsListing(rows, trail, order)
    ensures AreLastTen(rows, order, h)
  {
    var g := Recent(h);
    ListingOfHeld(rows, trail, g, order);
    forall i | 0 <= i < |order| ensures rows[order[i]].payload == h[|h| - 1 - i].payload {
      assert order[i] == g[|g| - 1 - i].id;
    }
  }

  /** A device without rollback rows of the account holds the end of the empty history. */
  lemma NoRowsHoldNothing(rows: map<nat, Row>, trail: Trail)
    requires Mine(rows, trail) == {}
    ensures Holds(rows, trail, Recent([]))
  {
    assert Members(Ids([])) == {};
  }

  /** And no push touches a row of another device or account. */
  lemma {:induction false} OtherRowsAreUntouched(t: Tables, run: seq<Push>, i: nat)
    requires Legal(t, run) && i in t.rows && forall j :: 0 <= j < |run| ==> run[j].trail != t.rows[i].trail
    ensures i in After(t, run).rows && After(t, run).rows[i] == t.rows[i]
  {
    if run != [] {
      var init := run[..|run| - 1];
      assert forall j :: 0 <= j < |init| ==> init[j] == run[j];
      OtherRowsAreUntouched(t, init, i);
      OtherRowStays(After(t, init), run[|run| - 1], i);
    }
  }
}
