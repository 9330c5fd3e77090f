/**
 The Idempotency-Key replay cache (app/idempotency.py) as a protocol between
 concurrent requests.

 A request looks for a committed record, runs its mutation on a miss, inserts a
 record inside a savepoint, and commits. An insert waits while another
 transaction holds an uncommitted row with the same primary key, and is dropped
 when a committed one exists. A run is any interleaving of these steps.
 */
module Idempotency {
  import opened Common
  import opened Decimal

  const TTL: Time := 86400.0

  // ---------------------------------------------------------- the key hash

  /** The account part of the hashed text; account 0 counts as anonymous. */
  function AccountText(account: Option<nat>): string {
    if account.None? || account.value == 0 then "anon" else Digits(account.value)
  }

  /** The text whose SHA-256 is the primary key, with the method already in upper case. */
  function Seed(account: Option<nat>, verb: string, path: string, key: string): string {
    AccountText(account) + "|" + verb + "|" + path + "|" + key
  }

  /** The first separator splits a text in only one way. */
  lemma SplitAt(c: char, a: string, x: string, b: string, y: string)
    requires c !in a && c !in b
    requires a + [c] + x == b + [c] + y
    ensures a == b && x == y
  {
    var s, t := a + [c] + x, b + [c] + y;
    assert s[|a|] == c && t[|b|] == c;
    assert forall i :: 0 <= i < |a| ==> s[i] == a[i];
    assert forall i :: 0 <= i < |b| ==> t[i] == b[i];
    assert |a| == |b|;
    assert s[..|a|] == a && t[..|b|] == b;
    assert s[|a| + 1..] == x && t[|b| + 1..] == y;
  }

  predicate SameAccount(a: Option<nat>, b: Option<nat>) {
    a == b || (a in {None, Some(0)} && b in {None, Some(0)})
  }

  lemma AccountTexts(a: Option<nat>, b: Option<nat>)
    ensures '|' !in AccountText(a)
    ensures AccountText(a) == AccountText(b) <==> SameAccount(a, b)
  {
    if a.Some? {
      DigitsAreDigits(a.value);
      assert Digits(a.value)[0] in Digits(a.value);
    }
    if b.Some? {
      DigitsAreDigits(b.value);
      assert Digits(b.value)[0] in Digits(b.value);
    }
    if a.Some? && b.Some? && Digits(a.value) == Digits(b.value) {
      DigitsAreInjective(a.value, b.value);
    }
  }

  /**
   Exactly when two requests share a record: same account (or both anonymous),
   same method, and the same text once path and key are joined by a bar.
   */
  lemma SeedsAgreeExactly(a: Option<nat>, m: string, p: string, k: string, b: Option<nat>, n: string, q: string,
                          j: string)
    requires '|' !in m && '|' !in n
    ensures Seed(a, m, p, k) == Seed(b, n, q, j) <==> SameAccount(a, b) && m == n && p + "|" + k == q + "|" + j
  {
    AccountTexts(a, b);
    AccountTexts(b, a);
    var x, y := m + "|" + (p + "|" + k), n + "|" + (q + "|" + j);
    assert Seed(a, m, p, k) == AccountText(a) + "|" + x;
    assert Seed(b, n, q, j) == AccountText(b) + "|" + y;
    if Seed(a, m, p, k) == Seed(b, n, q, j) {
      SplitAt('|', AccountText(a), x, AccountText(b), y);
      SplitAt('|', m, p + "|" + k, n, q + "|" + j);
    }
  }

  // ------------------------------------------------- the endpoints that use it

  /** The four endpoints behind the cache: invites, and the backups of a device. */
  datatype Endpoint = Invites | Backups(device: string, tail: Tail)

  datatype Tail = Plain | Import | Restore

  const INVITES := "/api/v1/admin/invites"
  const DEVICES := "/api/v1/devices/"

  function TailText(t: Tail): string {
    match t
    case Plain => "backups"
    case Import => "backups/import"
    case Restore => "backups/restore"
  }

  function Path(e: Endpoint): string {
    match e
    case Invites => INVITES
    case Backups(device, tail) => DEVICES + (device + "/" + TailText(tail))
  }

  /** A device id is one path segment; it may hold anything but a slash, since it is looked at only after the replay. */
  predicate Routed(e: Endpoint) {
    e.Backups? ==> '/' !in e.device
  }

  lemma TailTexts(t: Tail, u: Tail)
    ensures '|' !in TailText(t) && (TailText(t) == TailText(u) ==> t == u)
  {
    assert |TailText(Plain)| == 7 && |TailText(Import)| == 14 && |TailText(Restore)| == 15;
  }

  lemma Regroup(p: string, d: string, x: string, k: string)
    ensures p + (d + "/" + x) + "|" + k == p + (d + "/" + (x + "|" + k))
  {
  }

  lemma DropPrefix(p: string, s: string, t: string)
    requires p + s == p + t
    ensures s == t
  {
    assert (p + s)[|p|..] == s && (p + t)[|p|..] == t;
  }

  /** A slash-free segment and a bar-free rest can be told apart again, bars in the segment or not. */
  lemma SegmentsAreApart(p: string, d: string, x: string, k: string, e: string, y: string, j: string)
    requires '/' !in d && '/' !in e && '|' !in x && '|' !in y
    requires p + (d + "/" + x) + "|" + k == p + (e + "/" + y) + "|" + j
    ensures d == e && x == y && k == j
  {
    Regroup(p, d, x, k);
    Regroup(p, e, y, j);
    DropPrefix(p, d + "/" + (x + "|" + k), e + "/" + (y + "|" + j));
    SplitAt('/', d, x + "|" + k, e, y + "|" + j);
    SplitAt('|', x, k, y, j);
  }

  lemma BackupsAreApart(device: string, t: Tail, k: string, other: string, u: Tail, j: string)
    requires '/' !in device && '/' !in other
    requires Path(Backups(device, t)) + "|" + k == Path(Backups(other, u)) + "|" + j
    ensures device == other && t == u && k == j
  {
    TailTexts(t, u);
    TailTexts(u, t);
    SegmentsAreApart(DEVICES, device, TailText(t), k, other, TailText(u), j);
  }

  lemma InvitesAreApart(device: string, t: Tail, k: string, j: string)
    ensures Path(Invites) + "|" + j != Path(Backups(device, t)) + "|" + k
  {
    assert INVITES[8] == 'a' && DEVICES[8] == 'd';
    assert (Path(Invites) + "|" + j)[8] == INVITES[8];
    assert (Path(Backups(device, t)) + "|" + k)[8] == DEVICES[8];
  }

  /**
   For every two requests that the service can receive, whatever the client put
   into the device segment and the header: they share a record if and only if
   account, endpoint and key are the same.
   */
  lemma RecordsAreApart(a: nat, e: Endpoint, k: string, b: nat, f: Endpoint, j: string)
    requires a > 0 && b > 0 && Routed(e) && Routed(f)
    ensures Seed(Some(a), "POST", Path(e), k) == Seed(Some(b), "POST", Path(f), j) <==> a == b && e == f && k == j
  {
    SeedsAgreeExactly(Some(a), "POST", Path(e), k, Some(b), "POST", Path(f), j);
    if Path(e) + "|" + k == Path(f) + "|" + j {
      match (e, f)
      case (Invites, Invites) => SplitAt('|', INVITES, k, INVITES, j);
      case (Invites, Backups(d, t)) => InvitesAreApart(d, t, j, k);
      case (Backups(d, t), Invites) => InvitesAreApart(d, t, k, j);
      case (Backups(d, t), Backups(d', u)) => BackupsAreApart(d, t, k, d', u, j);
    }
  }

  // ------------------------------------------------------- the two calls

  datatype Response = Response(status: nat, body: seq<int>)

  datatype Record = Record(bodyHash: Option<string>, response: Response, expires: Time)

  /** What a request is told before its handler runs. */
  datatype Lookup = Miss | Expired | Mismatch | Replay(response: Response)

  function LookUp(rows: map<string, Record>, key: string, bodyHash: Option<string>, now: Time): Lookup {
    if key !in rows then Miss
    else if rows[key].expires <= now then Expired
    else if bodyHash.Some? && rows[key].bodyHash.Some? && bodyHash != rows[key].bodyHash then Mismatch
    else Replay(rows[key].response)
  }

  predicate GoodHeader(header: string) {
    4 <= |header| <= 128
  }

  /** The table as one transaction sees it; without a header neither call does anything. */
  class Records {
    var rows: map<string, Record>

    /** `None` lets the handler run; a bad header is answered with 400 before the table is read. */
    method ReplayIfPresent(header: string, key: string, bodyHash: Option<string>, now: Time)
      returns (answer: Option<Lookup>, badRequest: bool)
      modifies this
      ensures badRequest <==> header != "" && !GoodHeader(header)
      ensures header == "" || badRequest ==> answer == None && rows == old(rows)
      ensures GoodHeader(header) ==>
                var found := LookUp(old(rows), key, bodyHash, now);
                && answer == (if found.Miss? || found.Expired? then None else Some(found))
                && rows == (if found.Expired? then old(rows) - {key} else old(rows))
    {
      answer, badRequest := None, false;
      if header == "" {
        return;
      }
      if |header| < 4 || |header| > 128 {
        badRequest := true;
        return;
      }
      if key !in rows {
        return;
      }
      var row := rows[key];
      if row.expires <= now {
        rows := rows - {key};
        return;
      }
      if bodyHash.Some? && row.bodyHash.Some? && bodyHash.value != row.bodyHash.value {
        answer := Some(Mismatch);
        return;
      }
      answer := Some(Replay(row.response));
    }

    /** First write wins: a key that is taken keeps its record. */
    method Persist(header: string, key: string, bodyHash: Option<string>, response: Response, now: Time)
      modifies this
      ensures rows == if header == "" || key in old(rows) then old(rows)
                      else old(rows)[key := Record(bodyHash, response, now + TTL)]
    {
      if header == "" {
        return;
      }
      if key !in rows {
        rows := rows[key := Record(bodyHash, response, now + TTL)];
      }
    }
  }

  // ---------------------------------------------------- interleaved runs

  datatype Phase =
    | Running
    | Mutated(response: Response)
    | Inserted(response: Response, own: bool)
    | Answered(reply: Reply)

  datatype Reply = Replayed(response: Response) | Fresh(response: Response) | Unprocessable | Failed

  datatype Request = Request(key: string, bodyHash: Option<string>, phase: Phase)

  /** An uncommitted row, with the request whose transaction holds it. */
  datatype Pending = Pending(owner: nat, record: Record)

  datatype World = World(now: Time, committed: map<string, Record>, pending: map<string, Pending>,
                         requests: map<nat, Request>, mutators: set<nat>)

  datatype Step =
    | Tick(elapsed: Time)
    | Arrive(id: nat, key: string, bodyHash: Option<string>)
    | Mutate(id: nat, response: Response)
    | Insert(id: nat)
    | Commit(id: nat)
    | Abort(id: nat)

  predicate Enabled(s: World, step: Step) {
    match step
    case Tick(elapsed) => elapsed >= 0.0
    case Arrive(id, _, _) => id !in s.requests
    case Mutate(id, _) => id in s.requests && s.requests[id].phase.Running?
    case Insert(id) =>
      id in s.requests && s.requests[id].phase.Mutated? &&
      (s.requests[id].key in s.committed || s.requests[id].key !in s.pending)
    case Commit(id) => id in s.requests && s.requests[id].phase.Inserted?
    case Abort(id) => id in s.requests && !s.requests[id].phase.Answered?
  }

  function Moved(s: World, id: nat, phase: Phase): World
    requires id in s.requests
  {
    s.(requests := s.requests[id := s.requests[id].(phase := phase)])
  }

  /** The request's transaction ends; an uncommitted row of its own goes with it. */
  function Released(s: World, id: nat): World
    requires id in s.requests
  {
    var key := s.requests[id].key;
    if key in s.pending && s.pending[key].owner == id then s.(pending := s.pending - {key}) else s
  }

  function Arrived(s: World, id: nat, key: string, bodyHash: Option<string>): World {
    match LookUp(s.committed, key, bodyHash, s.now)
    case Miss => s.(requests := s.requests[id := Request(key, bodyHash, Running)])
    case Expired =>
      s.(requests := s.requests[id := Request(key, bodyHash, Running)], committed := s.committed - {key})
    case Mismatch => s.(requests := s.requests[id := Request(key, bodyHash, Answered(Unprocessable))])
    case Replay(response) => s.(requests := s.requests[id := Request(key, bodyHash, Answered(Replayed(response)))])
  }

  function Apply(s: World, step: Step): World
    requires Enabled(s, step)
  {
    match step
    case Tick(elapsed) => s.(now := s.now + elapsed)
    case Arrive(id, key, bodyHash) => Arrived(s, id, key, bodyHash)
    case Mutate(id, response) => Moved(s, id, Mutated(response)).(mutators := s.mutators + {id})
    case Insert(id) =>
      var r := s.requests[id];
      if r.key in s.committed then Moved(s, id, Inserted(r.phase.response, false))
      else
        var record := Record(r.bodyHash, r.phase.response, s.now + TTL);
        Moved(s, id, Inserted(r.phase.response, true)).(pending := s.pending[r.key := Pending(id, record)])
    case Commit(id) =>
      var r := s.requests[id];
      var s' := Moved(Released(s, id), id, Answered(Fresh(r.phase.response)));
      if r.key in s.pending && s.pending[r.key].owner == id then
        s'.(committed := s.committed[r.key := s.pending[r.key].record])
      else s'
    case Abort(id) => Moved(Released(s, id), id, Answered(Failed))
  }

  /** A step that is not enabled does nothing. */
  function Next(s: World, step: Step): World {
    if Enabled(s, step) then Apply(s, step) else s
  }

  function Run(s: World, run: seq<Step>): World {
    if run == [] then s else Next(Run(s, run[..|run| - 1]), run[|run| - 1])
  }

  const INITIAL := World(0.0, map[], map[], map[], {})

  // ------------------------------------------------------------ invariants

  /** What every reachable state knows about one key. */
  ghost predicate KeyOk(s: World, key: string) {
    && (key in s.committed ==> key !in s.pending)
    && (key in s.pending ==>
          var p := s.pending[key];
          && p.owner in s.requests && s.requests[p.owner].key == key
          && s.requests[p.owner].bodyHash == p.record.bodyHash
          && s.requests[p.owner].phase == Inserted(p.record.response, true))
  }

  lemma StepKeepsKeyOk(s: World, step: Step, key: string)
    requires KeyOk(s, key)
    ensures KeyOk(Next(s, step), key)
  {
  }

  lemma {:induction false} RunKeepsKeyOk(s: World, run: seq<Step>, key: string)
    requires KeyOk(s, key)
    ensures KeyOk(Run(s, run), key)
  {
    if run != [] {
      RunKeepsKeyOk(s, run[..|run| - 1], key);
      StepKeepsKeyOk(Run(s, run[..|run| - 1]), run[|run| - 1], key);
    }
  }

  lemma {:induction false} MutatorsHaveArrived(run: seq<Step>, id: nat)
    requires id in Run(INITIAL, run).mutators
    ensures id in Run(INITIAL, run).requests
  {
    if run != [] && id in Run(INITIAL, run[..|run| - 1]).mutators {
      MutatorsHaveArrived(run[..|run| - 1], id);
    }
  }

  // -------------------------------------------------------------- theorems

  lemma StepKeepsRecord(s: World, step: Step, key: string)
    requires KeyOk(s, key) && key in s.committed && s.now < s.committed[key].expires
    ensures key in Next(s, step).committed && Next(s, step).committed[key] == s.committed[key]
  {
  }

  /** A committed record is never replaced or removed while it is valid, whatever else runs. */
  lemma {:induction false} RecordIsFinal(s: World, run: seq<Step>, key: string)
    requires KeyOk(s, key) && key in s.committed
    requires Run(s, run).now < s.committed[key].expires
    ensures key in Run(s, run).committed && Run(s, run).committed[key] == s.committed[key]
  {
    if run != [] {
      var init, step := run[..|run| - 1], run[|run| - 1];
      RunSplit(s, init, step, run);
      RecordIsFinal(s, init, key);
      RunKeepsKeyOk(s, init, key);
      StepKeepsRecord(Run(s, init), step, key);
    }
  }

  lemma RunSplit(s: World, init: seq<Step>, step: Step, run: seq<Step>)
    requires run != [] && init == run[..|run| - 1] && step == run[|run| - 1]
    ensures Run(s, init).now <= Run(s, run).now
  {
  }

  function ReplyFrom(record: Record, bodyHash: Option<string>): Reply {
    if bodyHash.Some? && record.bodyHash.Some? && bodyHash != record.bodyHash then Unprocessable
    else Replayed(record.response)
  }

  /** A request answered from the record, which never ran its mutation. */
  ghost predicate AnsweredFrom(s: World, id: nat, key: string, record: Record) {
    && (id !in s.requests ==> id !in s.mutators)
    && (id in s.requests && s.requests[id].key == key ==>
          s.requests[id].phase == Answered(ReplyFrom(record, s.requests[id].bodyHash)) && id !in s.mutators)
  }

  lemma StepKeepsAnswer(s: World, step: Step, id: nat, key: string)
    requires KeyOk(s, key) && key in s.committed && s.now < s.committed[key].expires
    requires AnsweredFrom(s, id, key, s.committed[key])
    ensures AnsweredFrom(Next(s, step), id, key, s.committed[key])
  {
  }

  lemma {:induction false} AnswersStay(s: World, run: seq<Step>, id: nat, key: string)
    requires KeyOk(s, key) && key in s.committed && AnsweredFrom(s, id, key, s.committed[key])
    requires Run(s, run).now < s.committed[key].expires
    ensures AnsweredFrom(Run(s, run), id, key, s.committed[key])
  {
    if run != [] {
      var init, step := run[..|run| - 1], run[|run| - 1];
      RunSplit(s, init, step, run);
      AnswersStay(s, init, id, key);
      RecordIsFinal(s, init, key);
      RunKeepsKeyOk(s, init, key);
      StepKeepsAnswer(Run(s, init), step, id, key);
    }
  }

  /**
   In every run, a request that arrives after a record is committed and while it
   is valid gets exactly the recorded response, or 422 when both bodies are known
   and differ, and it never runs its mutation.
   */
  lemma LateRequestsReplay(before: seq<Step>, after: seq<Step>, id: nat, key: string)
    requires key in Run(INITIAL, before).committed && id !in Run(INITIAL, before).requests
    ensures
      var s := Run(INITIAL, before);
      var record, s' := s.committed[key], Run(s, after);
      s'.now < record.expires && id in s'.requests && s'.requests[id].key == key ==>
        && s'.requests[id].phase == Answered(ReplyFrom(record, s'.requests[id].bodyHash))
        && id !in s'.mutators
  {
    var s := Run(INITIAL, before);
    RunKeepsKeyOk(INITIAL, before, key);
    if id in s.mutators {
      MutatorsHaveArrived(before, id);
    }
    if Run(s, after).now < s.committed[key].expires {
      AnswersStay(s, after, id, key);
    }
  }

  /** What becomes of an inserted row: it waits, its transaction fails, or it is the record. */
  ghost predicate Owns(s: World, key: string, p: Pending) {
    p.owner in s.requests && s.requests[p.owner].key == key &&
    match s.requests[p.owner].phase
    case Inserted(_, _) => key in s.pending && s.pending[key] == p
    case Answered(Failed) => true
    case Answered(Fresh(response)) =>
      response == p.record.response &&
      (s.now < p.record.expires ==> key in s.committed && s.committed[key] == p.record)
    case _ => false
  }

  lemma StepKeepsOwner(s: World, step: Step, key: string, p: Pending)
    requires KeyOk(s, key) && Owns(s, key, p)
    ensures Owns(Next(s, step), key, p)
  {
    if key in s.committed && s.now < s.committed[key].expires {
      StepKeepsRecord(s, step, key);
    }
  }

  /**
   First write wins: once a request has inserted its row, no other request can
   store a record for the key unless that transaction fails. When it commits, the
   record is its own row, and the response it returns is the one later requests
   are given.
   */
  lemma {:induction false} FirstInsertWins(s: World, run: seq<Step>, key: string)
    requires KeyOk(s, key) && key in s.pending
    ensures Owns(Run(s, run), key, s.pending[key])
  {
    if run != [] {
      var init := run[..|run| - 1];
      FirstInsertWins(s, init, key);
      RunKeepsKeyOk(s, init, key);
      StepKeepsOwner(Run(s, init), run[|run| - 1], key, s.pending[key]);
    }
  }

  /** The rows of a key, committed or not, expire within 24 hours from now. */
  ghost predicate ExpiresInADay(s: World, key: string) {
    && (key in s.committed ==> s.committed[key].expires <= s.now + 86400.0)
    && (key in s.pending ==> s.pending[key].record.expires <= s.now + 86400.0)
  }

  lemma StepKeepsExpiry(s: World, step: Step, key: string)
    requires ExpiresInADay(s, key)
    ensures ExpiresInADay(Next(s, step), key)
  {
  }

  /** In every run, no record stays valid for longer than 24 hours after it was made. */
  lemma {:induction false} RecordsExpireInADay(run: seq<Step>, key: string)
    ensures ExpiresInADay(Run(INITIAL, run), key)
  {
    if run != [] {
      RecordsExpireInADay(run[..|run| - 1], key);
      StepKeepsExpiry(Run(INITIAL, run[..|run| - 1]), run[|run| - 1], key);
    }
  }

  /** A request that arrives deletes an expired record of its key, and changes no other. */
  lemma ArrivalIsExact(s: World, id: nat, key: string, bodyHash: Option<string>)
    requires id !in s.requests
    ensures
      var s' := Next(s, Arrive(id, key, bodyHash));
      var expired := key in s.committed && s.committed[key].expires <= s.now;
      && s'.committed == (if expired then s.committed - {key} else s.committed)
      && s'.pending == s.pending && s'.mutators == s.mutators
      && id in s'.requests && s'.requests[id].key == key && s'.requests[id].bodyHash == bodyHash
      && (s'.requests[id].phase.Running? <==> key !in s.committed || expired)
  {
  }

  /** An insert that finds the key free stores the request's own body hash and response, for 24 hours. */
  lemma InsertIsExact(s: World, id: nat)
    requires Enabled(s, Insert(id))
    ensures
      var r, s' := s.requests[id], Next(s, Insert(id));
      && (r.key in s.committed ==> s'.pending == s.pending)
      && (r.key !in s.committed ==>
            && r.key in s'.pending && s'.pending[r.key].owner == id
            && s'.pending[r.key].record.bodyHash == r.bodyHash
            && s'.pending[r.key].record.response == r.phase.response
            && s'.pending[r.key].record.expires == s.now + 86400.0)
      && s'.committed == s.committed
  {
  }

  /** Every run starts with no records at all. */
  lemma ReachableKeysAreOk(run: seq<Step>, key: string)
    ensures KeyOk(Run(INITIAL, run), key)
  {
    RunKeepsKeyOk(INITIAL, run, key);
  }

  // --------------------------------------------- who mutates, and what is stored

  /** A record that answers requests arriving now. */
  predicate IsValid(s: World, key: string) {
    key in s.committed && s.now < s.committed[key].expires
  }

  /** A request that has been answered without a mutation never mutates. */
  lemma {:induction false} AnsweredStaysOut(s: World, run: seq<Step>, id: nat)
    requires id in s.requests && s.requests[id].phase.Answered? && id !in s.mutators
    ensures id in Run(s, run).requests && Run(s, run).requests[id].phase.Answered? && id !in Run(s, run).mutators
  {
    if run != [] {
      AnsweredStaysOut(s, run[..|run| - 1], id);
      StepKeepsOut(Run(s, run[..|run| - 1]), run[|run| - 1], id);
    }
  }

  lemma StepKeepsOut(s: World, step: Step, id: nat)
    requires id in s.requests && s.requests[id].phase.Answered? && id !in s.mutators
    ensures id in Next(s, step).requests && Next(s, step).requests[id].phase.Answered? && id !in Next(s, step).mutators
  {
  }

  lemma RunOne(s: World, step: Step)
    ensures Run(s, [step]) == Next(s, step)
  {
    assert [step][..0] == [] && Run(s, []) == s;
  }

  /**
   Exactly when a request that arrives now can still run its mutation, in some
   continuation: when no valid record is committed. Whether other requests with
   the key are under way does not matter, since the cache replays and does not lock.
   */
  lemma MutationIsOpenExactly(s: World, id: nat, key: string, bodyHash: Option<string>)
    requires id !in s.requests && id !in s.mutators
    ensures
      var s' := Next(s, Arrive(id, key, bodyHash));
      (exists run :: id in Run(s', run).mutators) <==> !IsValid(s, key)
  {
    var s' := Next(s, Arrive(id, key, bodyHash));
    if IsValid(s, key) {
      forall run ensures id !in Run(s', run).mutators {
        AnsweredStaysOut(s', run, id);
      }
    } else {
      var mutate := Mutate(id, Response(200, []));
      RunOne(s', mutate);
      assert id in Run(s', [mutate]).mutators;
    }
  }

  /** So two requests that both arrive before the commit both run their mutation, whatever their bodies. */
  lemma EarlyRequestsBothMutate(s: World, key: string, id: nat, x: Option<string>, a: Response,
                                jd: nat, y: Option<string>, b: Response)
    requires !IsValid(s, key) && id !in s.requests && jd !in s.requests && id != jd
    ensures
      var both := Next(Next(s, Arrive(id, key, x)), Arrive(jd, key, y));
      var s' := Next(Next(both, Mutate(id, a)), Mutate(jd, b));
      id in s'.mutators && jd in s'.mutators
  {
  }

  /** The records that a run stored for a key, in order. */
  function Stores(run: seq<Step>, key: string): seq<Record> {
    if run == [] then []
    else
      var init := run[..|run| - 1];
      var s := Run(INITIAL, init);
      Stores(init, key) + Stored(s, run[|run| - 1], key)
  }

  /** The record that a step stores for a key, if it does. */
  function Stored(s: World, step: Step, key: string): seq<Record> {
    if step.Commit? && Enabled(s, step) && s.requests[step.id].key == key
       && key in s.pending && s.pending[key].owner == step.id then [s.pending[key].record]
    else []
  }

  /** What a run within the TTL has stored and answered for a key. */
  ghost predicate StoredOnce(s: World, stores: seq<Record>, key: string) {
    && |stores| <= 1 && (key in s.committed <==> |stores| == 1)
    && (key in s.committed ==> s.committed[key] == stores[0] && s.committed[key].expires >= TTL)
    && (key in s.pending ==> s.pending[key].record.expires >= TTL)
    && KeyOk(s, key) && s.now >= 0.0
  }

  /** Every answered request of the key was answered from, or became, what was stored. */
  ghost predicate AnswerOk(s: World, key: string, id: nat) {
    id in s.requests && s.requests[id].key == key ==>
      match s.requests[id].phase
      case Inserted(_, own) => if own then key in s.pending && s.pending[key].owner == id else key in s.committed
      case Answered(Fresh(_)) => key in s.committed
      case Answered(Replayed(response)) => key in s.committed && s.committed[key].response == response
      case _ => true
  }

  lemma StepStoresOnce(s: World, step: Step, stores: seq<Record>, key: string)
    requires StoredOnce(s, stores, key) && s.now < TTL
    ensures StoredOnce(Next(s, step), stores + Stored(s, step, key), key)
  {
  }

  lemma StepKeepsAnswerOk(s: World, step: Step, stores: seq<Record>, key: string, id: nat)
    requires StoredOnce(s, stores, key) && s.now < TTL && AnswerOk(s, key, id)
    ensures AnswerOk(Next(s, step), key, id)
  {
  }

  lemma {:induction false} RunStoresOnce(run: seq<Step>, key: string)
    requires Run(INITIAL, run).now < TTL
    ensures StoredOnce(Run(INITIAL, run), Stores(run, key), key)
    ensures forall id :: AnswerOk(Run(INITIAL, run), key, id)
  {
    if run != [] {
      var init, step := run[..|run| - 1], run[|run| - 1];
      RunSplit(INITIAL, init, step, run);
      RunStoresOnce(init, key);
      StepStoresOnce(Run(INITIAL, init), step, Stores(init, key), key);
      forall id ensures AnswerOk(Run(INITIAL, run), key, id) {
        StepKeepsAnswerOk(Run(INITIAL, init), step, Stores(init, key), key, id);
      }
    }
  }

  /**
   From no records at all, in every interleaving within the TTL at most one record
   is ever stored for a key, the first one committed, and it is there from then on.
   Once any request of the key has been answered with a response, fresh or
   replayed, exactly one has been stored, and every replay is its response.
   */
  lemma ExactlyOneRecord(run: seq<Step>, key: string, id: nat)
    requires Run(INITIAL, run).now < TTL
    ensures
      var s, stores := Run(INITIAL, run), Stores(run, key);
      && |stores| <= 1 && (key in s.committed <==> |stores| == 1)
      && (key in s.committed ==> s.committed[key] == stores[0])
      && (id in s.requests && s.requests[id].key == key && s.requests[id].phase.Answered? ==>
            match s.requests[id].phase.reply
            case Fresh(_) => |stores| == 1
            case Replayed(response) => |stores| == 1 && response == stores[0].response
            case _ => true)
  {
    RunStoresOnce(run, key);
    assert AnswerOk(Run(INITIAL, run), key, id);
  }
}
