/**
 Token revocation across workers (app/devices.py, app/_cache.py, app/retention.py).

 A logout first drops the cached verdict of the worker that handles it and then
 commits a denylist row. Every worker keeps its own verdict cache, the nightly
 sweep deletes rows whose token has expired, and deleting an account cascades to
 its rows. A run is any interleaving of these steps. Reading the denylist and
 caching the answer is one step, account ids are never reused, and one clock
 serves all workers.
 */
module Revocation {
  import opened Common
  import opened TtlCache

  const CACHE_TTL: Time := 30.0

  datatype Token = Token(account: nat, expires: Time, version: nat)

  datatype Row = Row(account: nat, expires: Time)

  /** A verdict cache slot: one worker, one token id. */
  datatype Slot = Slot(worker: nat, jti: string)

  datatype World = World(
    now: Time,
    issued: map<string, Token>,
    accounts: map<nat, nat>,
    usedIds: set<nat>,
    denylist: map<string, Row>,
    verdicts: map<Slot, Entry<bool>>,
    loggingOut: set<string>)

  datatype Step =
    | Tick(elapsed: Time)
    | CreateAccount(account: nat)
    | BumpVersion(account: nat)
    | DeleteAccount(account: nat)
    | Issue(jti: string, token: Token)
    | LogoutHandled(worker: nat, jti: string)
    | LogoutCommitted(jti: string)
    | Check(worker: nat, jti: string)
    | Sweep
    | Restart(worker: nat)

  const INITIAL := World(0.0, map[], map[], {}, map[], map[], {})

  /** The signature check refuses a token on and after its expiry instant. */
  predicate Decodes(s: World, jti: string) {
    jti in s.issued && s.now < s.issued[jti].expires
  }

  predicate Enabled(s: World, step: Step) {
    match step
    case Tick(elapsed) => elapsed >= 0.0
    case CreateAccount(a) => a !in s.usedIds
    case BumpVersion(a) => a in s.accounts
    case DeleteAccount(a) => a in s.accounts
    case Issue(jti, token) =>
      jti !in s.issued && token.account in s.accounts && token.version == s.accounts[token.account]
    case LogoutHandled(_, jti) => Decodes(s, jti)
    case LogoutCommitted(jti) => jti in s.loggingOut && jti in s.issued && s.issued[jti].account in s.accounts
    case Check(_, _) => true
    case Sweep => true
    case Restart(_) => true
  }

  /** The revocation lookup: the cached verdict if it is fresh, else the denylist. */
  predicate IsRevoked(s: World, w: nat, jti: string) {
    var hit := Lookup(s.verdicts, Slot(w, jti), s.now);
    if hit.Some? then hit.value else jti in s.denylist
  }

  /** Whether a worker lets a request with this token through. */
  predicate Accepts(s: World, w: nat, jti: string) {
    && Decodes(s, jti)
    && !IsRevoked(s, w, jti)
    && s.issued[jti].account in s.accounts
    && s.accounts[s.issued[jti].account] == s.issued[jti].version
  }

  function Checked(s: World, w: nat, jti: string): World {
    if Decodes(s, jti) && Lookup(s.verdicts, Slot(w, jti), s.now).None? then
      s.(verdicts := Stored(s.verdicts, Slot(w, jti), jti in s.denylist, s.now, CACHE_TTL))
    else s
  }

  function Apply(s: World, step: Step): World
    requires Enabled(s, step)
  {
    match step
    case Tick(elapsed) => s.(now := s.now + elapsed)
    case CreateAccount(a) => s.(accounts := s.accounts[a := 1], usedIds := s.usedIds + {a})
    case BumpVersion(a) => s.(accounts := s.accounts[a := s.accounts[a] + 1])
    case DeleteAccount(a) =>
      s.(accounts := s.accounts - {a},
         denylist := map j | j in s.denylist && s.denylist[j].account != a :: s.denylist[j])
    case Issue(jti, token) => s.(issued := s.issued[jti := token])
    case LogoutHandled(w, jti) =>
      s.(verdicts := s.verdicts - {Slot(w, jti)}, loggingOut := s.loggingOut + {jti})
    case LogoutCommitted(jti) =>
      var t := s.issued[jti];
      var s' := s.(loggingOut := s.loggingOut - {jti});
      if jti in s.denylist then s' else s'.(denylist := s.denylist[jti := Row(t.account, t.expires)])
    case Check(w, jti) => Checked(s, w, jti)
    case Sweep => s.(denylist := map j | j in s.denylist && s.now < s.denylist[j].expires :: s.denylist[j])
    case Restart(w) => s.(verdicts := map slot | slot in s.verdicts && slot.worker != w :: s.verdicts[slot])
  }

  /** A step that is not enabled does nothing. */
  function Next(s: World, step: Step): World {
    if Enabled(s, step) then Apply(s, step) else s
  }

  function Run(s: World, run: seq<Step>): World {
    if run == [] then s else Next(Run(s, run[..|run| - 1]), run[|run| - 1])
  }

  /** One worker: the shared tables, and its own verdict cache, changed in place by its handlers. */
  class Service {
    const worker: nat
    const cache: Cache<bool>
    var issued: map<string, Token>
    var accounts: map<nat, nat>
    var denylist: map<string, Row>
    var loggingOut: set<string>

    /** The fields of this worker are what the world says, the other workers' caches being anything. */
    ghost predicate Sees(s: World)
      reads this, cache
    {
      && s.issued == issued && s.accounts == accounts && s.denylist == denylist && s.loggingOut == loggingOut
      && (forall jti :: Slot(worker, jti) in s.verdicts <==> jti in cache.store)
      && (forall jti :: jti in cache.store ==> s.verdicts[Slot(worker, jti)] == cache.store[jti])
    }

    ghost predicate Valid()
    {
      cache.ttl == CACHE_TTL
    }

    /** A worker that has just been restarted. */
    constructor (w: nat, s: World)
      ensures Valid() && worker == w && fresh(cache) && Sees(Next(s, Restart(w)))
    {
      worker := w;
      cache := new Cache(CACHE_TTL);
      issued, accounts, denylist, loggingOut := s.issued, s.accounts, s.denylist, s.loggingOut;
    }

    method Revoked(jti: string, now: Time) returns (revoked: bool)
      requires Valid()
      modifies cache
      ensures
        var hit := Lookup(old(cache.store), jti, now);
        revoked == if hit.Some? then hit.value else jti in denylist
      ensures
        cache.store == if Lookup(old(cache.store), jti, now).Some? then old(cache.store)
                       else Stored(old(cache.store), jti, jti in denylist, now, CACHE_TTL)
    {
      var hit := cache.Get(jti, now);
      if hit.Some? {
        return hit.value;
      }
      revoked := jti in denylist;
      cache.Set(jti, revoked, now, None);
    }

    /** Whether the bearer is let through; the world moves by one check. */
    method CurrentAccount(jti: string, now: Time) returns (accepted: bool)
      requires Valid()
      modifies cache
      ensures forall s: World :: old(Sees(s)) && s.now == now ==>
                accepted == Accepts(s, worker, jti) && Sees(Checked(s, worker, jti))
    {
      if jti !in issued || issued[jti].expires <= now {
        return false;
      }
      var revoked := Revoked(jti, now);
      if revoked {
        return false;
      }
      var token := issued[jti];
      accepted := token.account in accounts && token.version == accounts[token.account];
    }

    /** The handler drops this worker's verdict; the row is written when the request commits. */
    method Logout(jti: string, now: Time) returns (ok: bool)
      requires Valid()
      modifies this`loggingOut, cache
      ensures forall s: World :: old(Sees(s)) && s.now == now ==>
                ok == Enabled(s, LogoutHandled(worker, jti)) && Sees(Next(s, LogoutHandled(worker, jti)))
    {
      ok := jti in issued && now < issued[jti].expires;
      if ok {
        loggingOut := loggingOut + {jti};
        cache.Invalidate(Some(jti));
      }
    }
  }

  // ------------------------------------------------------------ invariants

  /** What every reachable state knows about one token and one cache slot. */
  ghost predicate Sane(s: World, w: nat, jti: string) {
    && s.accounts.Keys <= s.usedIds
    && (jti in s.issued ==> s.issued[jti].account in s.usedIds)
    && (jti in s.issued && s.issued[jti].account in s.accounts ==>
          s.issued[jti].version <= s.accounts[s.issued[jti].account])
    && (jti in s.denylist ==>
          jti in s.issued && s.denylist[jti] == Row(s.issued[jti].account, s.issued[jti].expires))
    && (Slot(w, jti) in s.verdicts ==> s.verdicts[Slot(w, jti)].expires <= s.now + CACHE_TTL)
  }

  lemma StepKeepsSane(s: World, step: Step, w: nat, jti: string)
    requires Sane(s, w, jti)
    ensures Sane(Next(s, step), w, jti)
  {
  }

  lemma {:induction false} RunKeepsSane(s: World, run: seq<Step>, w: nat, jti: string)
    requires Sane(s, w, jti)
    ensures Sane(Run(s, run), w, jti)
  {
    if run != [] {
      RunKeepsSane(s, run[..|run| - 1], w, jti);
      StepKeepsSane(Run(s, run[..|run| - 1]), run[|run| - 1], w, jti);
    }
  }

  /** The token can never be used again, whatever the caches say. */
  predicate Dead(s: World, jti: string) {
    jti in s.issued && (s.issued[jti].expires <= s.now || s.issued[jti].account !in s.accounts)
  }

  /** What a logout committed at `commit` leaves behind for one worker. */
  ghost predicate LoggedOut(s: World, w: nat, jti: string, commit: Time) {
    && jti in s.issued && commit <= s.now
    && (Dead(s, jti) ||
        (&& jti in s.denylist
         && (Slot(w, jti) in s.verdicts ==>
               s.verdicts[Slot(w, jti)].value || s.verdicts[Slot(w, jti)].expires <= commit + CACHE_TTL)))
  }

  lemma StepKeepsDead(s: World, step: Step, w: nat, jti: string)
    requires Sane(s, w, jti) && Dead(s, jti)
    ensures Dead(Next(s, step), jti)
  {
  }

  lemma StepKeepsLoggedOut(s: World, step: Step, w: nat, jti: string, commit: Time)
    requires Sane(s, w, jti) && LoggedOut(s, w, jti, commit)
    ensures LoggedOut(Next(s, step), w, jti, commit)
  {
    if Dead(s, jti) {
      StepKeepsDead(s, step, w, jti);
    }
  }

  lemma {:induction false} RunKeepsLoggedOut(s: World, run: seq<Step>, w: nat, jti: string, commit: Time)
    requires Sane(s, w, jti) && LoggedOut(s, w, jti, commit)
    ensures LoggedOut(Run(s, run), w, jti, commit)
  {
    if run != [] {
      var init := run[..|run| - 1];
      RunKeepsLoggedOut(s, init, w, jti, commit);
      RunKeepsSane(s, init, w, jti);
      StepKeepsLoggedOut(Run(s, init), run[|run| - 1], w, jti, commit);
    }
  }

  // -------------------------------------------------------------- theorems

  /**
   In every run, from 30 seconds after the commit of a logout, every worker
   refuses the token for ever: even after the sweep has deleted its row, even
   after its account and with it the row are deleted.
   */
  lemma LogoutHoldsEverywhere(before: seq<Step>, jti: string, after: seq<Step>, w: nat)
    requires Enabled(Run(INITIAL, before), LogoutCommitted(jti))
    ensures
      var committed := Apply(Run(INITIAL, before), LogoutCommitted(jti));
      var s := Run(committed, after);
      s.now >= committed.now + 30.0 ==> !Accepts(s, w, jti)
  {
    var s0 := Run(INITIAL, before);
    var committed := Apply(s0, LogoutCommitted(jti));
    RunKeepsSane(INITIAL, before, w, jti);
    StepKeepsSane(s0, LogoutCommitted(jti), w, jti);
    RunKeepsLoggedOut(committed, after, w, jti, committed.now);
  }

  /** A token that nobody has logged out: no row, and no cached refusal. */
  ghost predicate Untouched(s: World, w: nat, jti: string) {
    jti !in s.denylist && (Slot(w, jti) in s.verdicts ==> !s.verdicts[Slot(w, jti)].value)
  }

  lemma {:induction false} StaysUntouched(run: seq<Step>, w: nat, jti: string)
    requires LogoutCommitted(jti) !in run
    ensures Untouched(Run(INITIAL, run), w, jti)
  {
    if run != [] {
      StaysUntouched(run[..|run| - 1], w, jti);
      assert run[|run| - 1] in run;
      StepKeepsUntouched(Run(INITIAL, run[..|run| - 1]), run[|run| - 1], w, jti);
    }
  }

  lemma StepKeepsUntouched(s: World, step: Step, w: nat, jti: string)
    requires Untouched(s, w, jti) && step != LogoutCommitted(jti)
    ensures Untouched(Next(s, step), w, jti)
  {
  }

  /**
   And nothing else refuses a token: until its own logout commits, every worker
   accepts it while it has not expired, its account exists and the account's
   token version is the one it carries.
   */
  lemma OnlyLogoutRevokes(run: seq<Step>, w: nat, jti: string)
    requires LogoutCommitted(jti) !in run
    ensures
      var s := Run(INITIAL, run);
      Accepts(s, w, jti) <==>
      jti in s.issued && s.now < s.issued[jti].expires && s.issued[jti].account in s.accounts &&
      s.accounts[s.issued[jti].account] == s.issued[jti].version
  {
    StaysUntouched(run, w, jti);
  }

  lemma RunSnoc(s: World, run: seq<Step>, step: Step)
    ensures Run(s, run + [step]) == Next(Run(s, run), step)
  {
    assert (run + [step])[..|run|] == run;
  }

  // ------------------------------------------------ within the 30 seconds

  /** The worker holds a good verdict on the token that lasts beyond `at`, and nothing else stands against the token. */
  predicate TrustsUntilAfter(s: World, w: nat, jti: string, at: Time) {
    && jti in s.issued && at < s.issued[jti].expires
    && s.issued[jti].account in s.accounts && s.accounts[s.issued[jti].account] == s.issued[jti].version
    && Lookup(s.verdicts, Slot(w, jti), at) == Some(false)
  }

  /** Since the commit at `c`, the token has died, or the worker's only good verdict on it is the one it held then. */
  ghost predicate OnlyOldVerdict(c: World, s: World, w: nat, jti: string) {
    && jti in c.issued && jti in s.issued && s.issued[jti] == c.issued[jti]
    && (Dead(s, jti) ||
        (&& jti in s.denylist
         && c.issued[jti].account in c.accounts
         && c.accounts[c.issued[jti].account] <= s.accounts[c.issued[jti].account]
         && (Lookup(s.verdicts, Slot(w, jti), s.now) == Some(false) ==>
               Slot(w, jti) in c.verdicts && s.verdicts[Slot(w, jti)] == c.verdicts[Slot(w, jti)])))
  }

  lemma StepKeepsOnlyOldVerdict(c: World, s: World, step: Step, w: nat, jti: string)
    requires Sane(s, w, jti) && OnlyOldVerdict(c, s, w, jti)
    ensures OnlyOldVerdict(c, Next(s, step), w, jti)
  {
    if Dead(s, jti) {
      StepKeepsDead(s, step, w, jti);
    }
  }

  lemma {:induction false} RunKeepsOnlyOldVerdict(c: World, run: seq<Step>, w: nat, jti: string)
    requires Sane(c, w, jti) && OnlyOldVerdict(c, c, w, jti)
    ensures OnlyOldVerdict(c, Run(c, run), w, jti)
  {
    if run != [] {
      var init := run[..|run| - 1];
      RunKeepsOnlyOldVerdict(c, init, w, jti);
      RunKeepsSane(c, init, w, jti);
      StepKeepsOnlyOldVerdict(c, Run(c, init), run[|run| - 1], w, jti);
    }
  }

  /** Some continuation after the commit lets the worker accept the token at this delay. */
  ghost predicate MayStillAccept(c: World, w: nat, jti: string, delay: Time) {
    exists run :: Run(c, run).now == c.now + delay && Accepts(Run(c, run), w, jti)
  }

  /**
   Exactly when a worker can still accept a token some time after its logout has
   committed: when at the commit it holds a good verdict on it that lasts until
   then, and the token itself does too.
   */
  lemma StillAcceptedExactly(before: seq<Step>, jti: string, w: nat, delay: Time)
    requires Enabled(Run(INITIAL, before), LogoutCommitted(jti)) && delay >= 0.0
    ensures
      var c := Apply(Run(INITIAL, before), LogoutCommitted(jti));
      MayStillAccept(c, w, jti, delay) <==> TrustsUntilAfter(c, w, jti, c.now + delay)
  {
    var s := Run(INITIAL, before);
    var c := Apply(s, LogoutCommitted(jti));
    RunKeepsSane(INITIAL, before, w, jti);
    StepKeepsSane(s, LogoutCommitted(jti), w, jti);
    if run :| Run(c, run).now == c.now + delay && Accepts(Run(c, run), w, jti) {
      RunKeepsOnlyOldVerdict(c, run, w, jti);
      RunKeepsSane(c, run, w, jti);
      AcceptedByOldVerdict(c, Run(c, run), w, jti);
    }
    if TrustsUntilAfter(c, w, jti, c.now + delay) {
      TrustIsUsed(c, w, jti, delay);
    }
  }

  lemma AcceptedByOldVerdict(c: World, s: World, w: nat, jti: string)
    requires Sane(c, w, jti) && OnlyOldVerdict(c, s, w, jti) && Accepts(s, w, jti)
    ensures TrustsUntilAfter(c, w, jti, s.now)
  {
  }

  lemma TrustIsUsed(c: World, w: nat, jti: string, delay: Time)
    requires delay >= 0.0 && TrustsUntilAfter(c, w, jti, c.now + delay)
    ensures MayStillAccept(c, w, jti, delay)
  {
    RunSnoc(c, [], Tick(delay));
    assert [] + [Tick(delay)] == [Tick(delay)] && Run(c, []) == c;
    assert Run(c, [Tick(delay)]) == c.(now := c.now + delay);
  }

  lemma {:induction false} NoCheckNoVerdict(s: World, run: seq<Step>, w: nat, jti: string)
    requires Slot(w, jti) !in s.verdicts && Check(w, jti) !in run
    ensures Slot(w, jti) !in Run(s, run).verdicts
  {
    if run != [] {
      NoCheckNoVerdict(s, run[..|run| - 1], w, jti);
      assert run[|run| - 1] in run;
      StepWithoutCheck(Run(s, run[..|run| - 1]), run[|run| - 1], w, jti);
    }
  }

  lemma StepWithoutCheck(s: World, step: Step, w: nat, jti: string)
    requires Slot(w, jti) !in s.verdicts && step != Check(w, jti)
    ensures Slot(w, jti) !in Next(s, step).verdicts
  {
  }

  /** At the commit the logged-out token is on the denylist, or dead. */
  lemma CommitIsSeen(s: World, w: nat, jti: string)
    requires Sane(s, w, jti) && Enabled(s, LogoutCommitted(jti))
    ensures
      var c := Apply(s, LogoutCommitted(jti));
      Sane(c, w, jti) && OnlyOldVerdict(c, c, w, jti)
  {
    StepKeepsSane(s, LogoutCommitted(jti), w, jti);
  }

  lemma {:induction false} RunAppend(s: World, a: seq<Step>, b: seq<Step>)
    ensures Run(s, a + b) == Run(Run(s, a), b)
  {
    if b == [] {
      assert a + b == a;
    } else {
      RunAppend(s, a, b[..|b| - 1]);
      assert (a + b)[..|a + b| - 1] == a + b[..|b| - 1];
    }
  }

  /**
   The worker that handled the logout drops its verdict, so it refuses the token from
   the commit on, unless it looks the token up again between handling and commit.
   */
  lemma HandlingWorkerRefusesAtOnce(before: seq<Step>, w: nat, jti: string, between: seq<Step>, after: seq<Step>)
    requires Enabled(Run(INITIAL, before), LogoutHandled(w, jti)) && Check(w, jti) !in between
    ensures
      var s := Run(INITIAL, before + [LogoutHandled(w, jti)] + between);
      Enabled(s, LogoutCommitted(jti)) ==> !Accepts(Run(Apply(s, LogoutCommitted(jti)), after), w, jti)
  {
    var run := before + [LogoutHandled(w, jti)];
    var s := Run(INITIAL, run + between);
    RunSnoc(INITIAL, before, LogoutHandled(w, jti));
    RunAppend(INITIAL, run, between);
    NoCheckNoVerdict(Run(INITIAL, run), between, w, jti);
    if Enabled(s, LogoutCommitted(jti)) {
      var c := Apply(s, LogoutCommitted(jti));
      RunKeepsSane(INITIAL, run + between, w, jti);
      CommitIsSeen(s, w, jti);
      RunKeepsOnlyOldVerdict(c, after, w, jti);
      if Accepts(Run(c, after), w, jti) {
        AcceptedByOldVerdict(c, Run(c, after), w, jti);
      }
    }
  }

  /** The token carries a version its account has left behind, or its account is gone for good. */
  ghost predicate Outdated(s: World, jti: string) {
    && jti in s.issued && s.issued[jti].account in s.usedIds
    && (s.issued[jti].account in s.accounts ==> s.issued[jti].version < s.accounts[s.issued[jti].account])
  }

  lemma {:induction false} StaysOutdated(s: World, run: seq<Step>, jti: string)
    requires Outdated(s, jti)
    ensures Outdated(Run(s, run), jti)
  {
    if run != [] {
      StaysOutdated(s, run[..|run| - 1], jti);
      StepKeepsOutdated(Run(s, run[..|run| - 1]), run[|run| - 1], jti);
    }
  }

  lemma StepKeepsOutdated(s: World, step: Step, jti: string)
    requires Outdated(s, jti)
    ensures Outdated(Next(s, step), jti)
  {
  }

  /** Raising an account's token version refuses every token issued before, on every worker, at once and for ever. */
  lemma BumpRefusesAll(before: seq<Step>, account: nat, after: seq<Step>, w: nat, jti: string)
    requires Enabled(Run(INITIAL, before), BumpVersion(account))
    requires jti in Run(INITIAL, before).issued && Run(INITIAL, before).issued[jti].account == account
    ensures !Accepts(Run(Apply(Run(INITIAL, before), BumpVersion(account)), after), w, jti)
  {
    var s := Run(INITIAL, before);
    RunKeepsSane(INITIAL, before, w, jti);
    StaysOutdated(Apply(s, BumpVersion(account)), after, jti);
  }

  /** Deleting an account refuses its tokens at once and for ever, although the cascade takes its denylist rows. */
  lemma DeletionRefusesAll(before: seq<Step>, account: nat, after: seq<Step>, w: nat, jti: string)
    requires Enabled(Run(INITIAL, before), DeleteAccount(account))
    requires jti in Run(INITIAL, before).issued && Run(INITIAL, before).issued[jti].account == account
    ensures !Accepts(Run(Apply(Run(INITIAL, before), DeleteAccount(account)), after), w, jti)
    ensures
      var s' := Apply(Run(INITIAL, before), DeleteAccount(account));
      forall j :: j in s'.denylist ==> s'.denylist[j].account != account
  {
    var s := Run(INITIAL, before);
    RunKeepsSane(INITIAL, before, w, jti);
    StaysOutdated(Apply(s, DeleteAccount(account)), after, jti);
  }

  /** The sweep deletes exactly the rows whose token has expired. */
  lemma SweepIsExact(s: World, jti: string)
    ensures jti in Next(s, Sweep).denylist <==> jti in s.denylist && s.now < s.denylist[jti].expires
    ensures jti in Next(s, Sweep).denylist ==> Next(s, Sweep).denylist[jti] == s.denylist[jti]
  {
  }

  /** The 30 seconds are needed: a worker that looks just before the commit trusts its verdict until then. */
  lemma StaleVerdictWindow(s: World, w: nat, jti: string, delay: Time)
    requires Accepts(s, w, jti) && Lookup(s.verdicts, Slot(w, jti), s.now).None?
    requires Enabled(s, LogoutCommitted(jti))
    requires 0.0 <= delay < 30.0 && s.now + delay < s.issued[jti].expires
    ensures Accepts(Run(s, [Check(w, jti), LogoutCommitted(jti), Tick(delay)]), w, jti)
  {
    var check, commit, tick := Check(w, jti), LogoutCommitted(jti), Tick(delay);
    assert Run(s, []) == s;
    assert [] + [check] == [check] && [check] + [commit] == [check, commit];
    assert [check, commit] + [tick] == [check, commit, tick];
    RunSnoc(s, [], check);
    RunSnoc(s, [check], commit);
    RunSnoc(s, [check, commit], tick);
  }
}
