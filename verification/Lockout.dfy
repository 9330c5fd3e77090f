/**
 Login lockout (app/devices.py): failed password checks arm a growing lock, and
 an attempt during a lock is answered before the password is looked at.
 */
module Lockout {
  import opened Common

  /** Minutes on one clock. */
  type Minutes = real

  /** The lock that the n-th consecutive failure arms. */
  function LockMinutes(n: nat): Minutes {
    if n >= 15 then 30.0 else if n >= 10 then 5.0 else if n >= 5 then 1.0 else 0.0
  }

  datatype Counters = Counters(failed: nat, lockedUntil: Option<Minutes>)

  /** Whether the password is right, and whether the account may log in at all. */
  datatype Attempt = Attempt(at: Minutes, recordedAt: Minutes, correct: bool, disabled: bool)

  datatype Answer = Locked | BadPassword | Disabled | LoggedIn

  predicate IsLocked(c: Counters, now: Minutes) {
    c.lockedUntil.Some? && now < c.lockedUntil.value
  }

  function Answered(c: Counters, a: Attempt): Answer {
    if IsLocked(c, a.at) then Locked
    else if !a.correct then BadPassword
    else if a.disabled then Disabled
    else LoggedIn
  }

  /** A disabled account's correct password neither fails nor clears anything. */
  function Updated(c: Counters, a: Attempt): Counters {
    match Answered(c, a)
    case BadPassword =>
      var n := c.failed + 1;
      Counters(n, if LockMinutes(n) == 0.0 then c.lockedUntil else Some(a.recordedAt + LockMinutes(n)))
    case LoggedIn => Counters(0, None)
    case _ => c
  }

  /** The fields of an account that a login touches. */
  class Account {
    var failedLoginCount: nat
    var lockedUntil: Option<Minutes>

    ghost function State(): Counters
      reads this
    {
      Counters(failedLoginCount, lockedUntil)
    }

    method RecordFailedLogin(now: Minutes) returns (minutes: Minutes)
      modifies this
      ensures failedLoginCount == old(failedLoginCount) + 1
      ensures minutes == LockMinutes(failedLoginCount)
      ensures lockedUntil == if minutes == 0.0 then old(lockedUntil) else Some(now + minutes)
    {
      failedLoginCount := failedLoginCount + 1;
      var n := failedLoginCount;
      minutes := 0.0;
      if n >= 15 {
        minutes := 30.0;
      } else if n >= 10 {
        minutes := 5.0;
      } else if n >= 5 {
        minutes := 1.0;
      }
      if minutes > 0.0 {
        lockedUntil := Some(now + minutes);
      }
    }

    method Login(a: Attempt) returns (answer: Answer)
      modifies this
      ensures answer == Answered(old(State()), a)
      ensures State() == Updated(old(State()), a)
    {
      if lockedUntil.Some? && lockedUntil.value > a.at {
        return Locked;
      }
      if !a.correct {
        var _ := RecordFailedLogin(a.recordedAt);
        return BadPassword;
      }
      if a.disabled {
        return Disabled;
      }
      failedLoginCount := 0;
      lockedUntil := None;
      answer := LoggedIn;
    }
  }

  // ------------------------------------------------------- overlapping requests

  /** A request between its lock test and its write: the row as it loaded it, and what became of the password. */
  datatype Open = Open(loaded: Counters, correct: bool, disabled: bool)

  /** The row, the requests under way, the times of failed password checks, the number of logins. */
  datatype World = World(now: Minutes, row: Counters, open: map<nat, Open>, failures: seq<Minutes>, logins: nat)

  datatype Step = Check(id: nat, at: Minutes, correct: bool, disabled: bool) | Record(id: nat, at: Minutes)

  const INITIAL := World(0.0, Counters(0, None), map[], [], 0)

  predicate Enabled(w: World, step: Step) {
    w.now <= step.at && (step.Check? <==> step.id !in w.open)
  }

  /**
   What a request writes over the row: the columns it assigned, computed from what
   it loaded. A column that is assigned the value it was loaded with is not written.
   */
  function Written(row: Counters, o: Open, at: Minutes): Counters {
    if !o.correct then
      var n := o.loaded.failed + 1;
      Counters(n, if LockMinutes(n) == 0.0 then row.lockedUntil else Some(at + LockMinutes(n)))
    else if o.disabled then row
    else
      Counters(if o.loaded.failed == 0 then row.failed else 0,
               if o.loaded.lockedUntil.None? then row.lockedUntil else None)
  }

  function Apply(w: World, step: Step): World
    requires Enabled(w, step)
  {
    match step
    case Check(id, at, correct, disabled) =>
      if IsLocked(w.row, at) then w.(now := at)
      else
        w.(now := at, open := w.open[id := Open(w.row, correct, disabled)],
           failures := if correct then w.failures else w.failures + [at])
    case Record(id, at) =>
      var o := w.open[id];
      w.(now := at, row := Written(w.row, o, at), open := w.open - {id},
         logins := w.logins + if o.correct && !o.disabled then 1 else 0)
  }

  /** A step that is not enabled does nothing. */
  function Next(w: World, step: Step): World {
    if Enabled(w, step) then Apply(w, step) else w
  }

  function Run(run: seq<Step>): World {
    if run == [] then INITIAL else Next(Run(run[..|run| - 1]), run[|run| - 1])
  }

  /** A request that nothing overlaps does what `Login` does. */
  lemma LoneRequestIsALogin(w: World, id: nat, a: Attempt)
    requires id !in w.open && w.now <= a.at <= a.recordedAt
    ensures
      var checked := Next(w, Check(id, a.at, a.correct, a.disabled));
      var w' := if id in checked.open then Next(checked, Record(id, a.recordedAt)) else checked;
      && w'.row == Updated(w.row, a) && w'.open == w.open
      && (Answered(w.row, a) == LoggedIn ==> w'.row.failed == 0 && w'.row.lockedUntil.None?)
      && (Answered(w.row, a) in {Locked, Disabled} ==> w'.row == w.row)
      && (Answered(w.row, a) == Locked <==> w.row.lockedUntil.Some? && a.at < w.row.lockedUntil.value)
      && w'.failures == (if Answered(w.row, a) == BadPassword then w.failures + [a.at] else w.failures)
      && w'.logins == w.logins + if Answered(w.row, a) == LoggedIn then 1 else 0
  {
    assert w.open[id := Open(w.row, a.correct, a.disabled)] - {id} == w.open;
  }

  // ------------------------------------------------------------- the time bound

  /** The minutes that must lie between the first and the n-th failed check. */
  function MinMinutes(n: nat): Minutes {
    if n <= 5 then 0.0
    else if n <= 10 then (n - 5) as real
    else if n <= 15 then 5.0 + 5.0 * (n - 10) as real
    else 30.0 + 30.0 * (n - 15) as real
  }

  lemma MinMinutesStep(n: nat)
    ensures MinMinutes(n + 1) == MinMinutes(n) + LockMinutes(n)
  {
  }

  /** Every failed check comes late enough after the first. */
  ghost predicate BoundMet(failures: seq<Minutes>) {
    forall i :: 0 <= i < |failures| ==> failures[i] >= failures[0] + MinMinutes(i + 1)
  }

  /** At most c requests of the account are ever between lock test and write. */
  ghost predicate AtMost(run: seq<Step>, c: nat) {
    run == [] || (AtMost(run[..|run| - 1], c) && |Run(run).open| <= c)
  }

  /** The lock reaches as far as the bound of the next failure. */
  predicate LockReaches(row: Counters, failures: seq<Minutes>) {
    |failures| >= 5 ==>
      row.lockedUntil.Some? && row.lockedUntil.value >= failures[0] + MinMinutes(|failures| + 1)
  }

  /** The request under way loaded the row as it still is, unlocked; a failed check of its own is not counted yet. */
  ghost predicate OpenOk(w: World, o: Open) {
    && o.loaded == w.row && !IsLocked(w.row, w.now)
    && (if o.correct then w.row.failed == |w.failures| && LockReaches(w.row, w.failures)
        else w.row.failed + 1 == |w.failures|)
  }

  /** What holds while no two requests overlap and none succeeds. */
  ghost predicate SoloOk(w: World) {
    && BoundMet(w.failures) && (forall i :: 0 <= i < |w.failures| ==> w.failures[i] <= w.now)
    && (forall id :: id in w.open ==> OpenOk(w, w.open[id]))
    && (w.open == map[] ==> w.row.failed == |w.failures| && LockReaches(w.row, w.failures))
  }

  lemma CheckKeepsSolo(w: World, step: Step)
    requires SoloOk(w) && step.Check? && Enabled(w, step) && |Apply(w, step).open| <= 1
    ensures SoloOk(Apply(w, step))
  {
    if !IsLocked(w.row, step.at) {
      assert w.open == map[];
    }
  }

  lemma RecordKeepsSolo(w: World, step: Step)
    requires SoloOk(w) && step.Record? && Enabled(w, step) && |w.open| <= 1 && Apply(w, step).logins == 0
    ensures SoloOk(Apply(w, step))
  {
    assert OpenOk(w, w.open[step.id]);
    assert w.open - {step.id} == map[] by {
      OnlyKey(w.open, step.id);
    }
    if !w.open[step.id].correct {
      var n := |w.failures|;
      MinMinutesStep(n);
      assert w.failures[n - 1] <= w.now && w.failures[n - 1] >= w.failures[0] + MinMinutes(n);
    }
  }

  lemma OnlyKey(open: map<nat, Open>, id: nat)
    requires id in open && |open| <= 1
    ensures open - {id} == map[]
  {
    assert open.Keys == {id} + (open.Keys - {id});
    assert |open.Keys| == |open|;
  }

  lemma {:induction false} SoloRunsAreOk(run: seq<Step>)
    requires AtMost(run, 1) && Run(run).logins == 0
    ensures SoloOk(Run(run)) && |Run(run).open| <= 1
  {
    if run != [] {
      var w, step := Run(run[..|run| - 1]), run[|run| - 1];
      SoloRunsAreOk(run[..|run| - 1]);
      if Enabled(w, step) {
        if step.Check? {
          CheckKeepsSolo(w, step);
        } else {
          RecordKeepsSolo(w, step);
        }
      }
    }
  }

  /**
   From a zero counter, without a success and without overlapping requests, the
   n-th failed password check comes at least n-5 minutes after the first, then
   5 + 5(n-10), then 30 + 30(n-15), however many locked-out or disabled attempts
   lie between them.
   */
  lemma NthFailureIsLate(run: seq<Step>, n: nat)
    requires AtMost(run, 1) && Run(run).logins == 0 && 1 <= n <= |Run(run).failures|
    ensures
      var at, first := Run(run).failures[n - 1], Run(run).failures[0];
      && (6 <= n <= 10 ==> at >= first + (n - 5) as real)
      && (11 <= n <= 15 ==> at >= first + 5.0 + 5.0 * (n - 10) as real)
      && (16 <= n ==> at >= first + 30.0 + 30.0 * (n - 15) as real)
  {
    SoloRunsAreOk(run);
    assert Run(run).failures[n - 1] >= Run(run).failures[0] + MinMinutes(n);
  }

  // ------------------------------------------------------- overlaps break it

  lemma RunSnoc(run: seq<Step>, step: Step, c: nat)
    ensures Run(run + [step]) == Next(Run(run), step)
    ensures AtMost(run + [step], c) <==> AtMost(run, c) && |Next(Run(run), step).open| <= c
  {
    assert (run + [step])[..|run|] == run;
  }

  /** Two wrong passwords at minute zero pass the lock test; then both are recorded. */
  function Overlap(run: seq<Step>): seq<Step> {
    BothChecked(run) + [Record(1, 0.0)] + [Record(2, 0.0)]
  }

  function BothChecked(run: seq<Step>): seq<Step> {
    run + [Check(1, 0.0, false, false)] + [Check(2, 0.0, false, false)]
  }

  lemma BothAreChecked(run: seq<Step>)
    requires AtMost(run, 2) && Run(run).now == 0.0 && Run(run).open == map[] && Run(run).row.lockedUntil.None?
    ensures
      var w := Run(run);
      var o := Open(w.row, false, false);
      && AtMost(BothChecked(run), 2)
      && Run(BothChecked(run)) == w.(open := map[1 := o, 2 := o], failures := w.failures + [0.0, 0.0])
  {
    var a := run + [Check(1, 0.0, false, false)];
    RunSnoc(run, Check(1, 0.0, false, false), 2);
    CheckAtZero(Run(run), 1);
    RunSnoc(a, Check(2, 0.0, false, false), 2);
    CheckAtZero(Run(a), 2);
    assert Run(run).failures + [0.0] + [0.0] == Run(run).failures + [0.0, 0.0];
  }

  /** The second write repeats the first one's count: two failures count as one. */
  lemma OverlapCountsOnce(run: seq<Step>)
    requires AtMost(run, 2) && Run(run).now == 0.0 && Run(run).open == map[] && Run(run).row.lockedUntil.None?
    requires Run(run).row.failed < 4
    ensures
      var w, w' := Run(run), Run(Overlap(run));
      && AtMost(Overlap(run), 2) && w'.now == 0.0 && w'.open == map[] && w'.logins == w.logins
      && w'.row == Counters(w.row.failed + 1, None) && w'.failures == w.failures + [0.0, 0.0]
  {
    var b := BothChecked(run);
    BothAreChecked(run);
    BothRecorded(Run(b), Run(run).row.failed);
    RunSnoc(b, Record(1, 0.0), 2);
    RunSnoc(b + [Record(1, 0.0)], Record(2, 0.0), 2);
  }

  lemma BothRecorded(w: World, n: nat)
    requires w.now == 0.0 && n < 4 && w.row == Counters(n, None)
    requires
      var o := Open(Counters(n, None), false, false);
      w.open == map[1 := o, 2 := o]
    ensures
      var once := Next(w, Record(1, 0.0));
      |once.open| == 1 && Next(once, Record(2, 0.0)) == w.(row := Counters(n + 1, None), open := map[])
  {
    var o := Open(Counters(n, None), false, false);
    assert map[1 := o, 2 := o] - {1} == map[2 := o] && map[2 := o] - {2} == map[];
    RecordAtZero(w, 1, n);
    RecordAtZero(Next(w, Record(1, 0.0)), 2, n);
  }

  lemma CheckAtZero(w: World, id: nat)
    requires w.now == 0.0 && id !in w.open && w.row.lockedUntil.None?
    ensures Next(w, Check(id, 0.0, false, false)) ==
            w.(open := w.open[id := Open(w.row, false, false)], failures := w.failures + [0.0])
  {
  }

  lemma RecordAtZero(w: World, id: nat, n: nat)
    requires w.now == 0.0 && n < 4 && id in w.open && w.open[id] == Open(Counters(n, None), false, false)
    ensures Next(w, Record(id, 0.0)) == w.(row := Counters(n + 1, w.row.lockedUntil), open := w.open - {id})
  {
  }

  /** Three such pairs: the sixth failed check comes at minute zero instead of one. */
  lemma OverlapsBeatTheBound()
    ensures
      var run := Overlap(Overlap(Overlap([])));
      AtMost(run, 2) && Run(run).logins == 0 && |Run(run).failures| == 6 && !BoundMet(Run(run).failures)
  {
    OverlapCountsOnce([]);
    OverlapCountsOnce(Overlap([]));
    OverlapCountsOnce(Overlap(Overlap([])));
    var failures := Run(Overlap(Overlap(Overlap([])))).failures;
    assert failures[5] == 0.0 && failures[0] == 0.0 && MinMinutes(6) == 1.0;
  }

  lemma {:induction false} AtMostGrows(run: seq<Step>, b: nat, c: nat)
    requires AtMost(run, b) && b <= c
    ensures AtMost(run, c)
  {
    if run != [] {
      AtMostGrows(run[..|run| - 1], b, c);
    }
  }

  /** No run with at most c requests under way and no success beats the bound. */
  ghost predicate BoundHolds(c: nat) {
    forall run :: AtMost(run, c) && Run(run).logins == 0 ==> BoundMet(Run(run).failures)
  }

  /** The bound holds if and only if the requests of one account are handled one at a time. */
  lemma BoundHoldsExactly(c: nat)
    ensures BoundHolds(c) <==> c <= 1
  {
    if c <= 1 {
      forall run | AtMost(run, c) && Run(run).logins == 0 ensures BoundMet(Run(run).failures) {
        AtMostGrows(run, c, 1);
        SoloRunsAreOk(run);
      }
    } else {
      OverlapsBeatTheBound();
      AtMostGrows(Overlap(Overlap(Overlap([]))), 2, c);
    }
  }

  /** Nothing bounds what overlapping requests can test: any number of passwords, all at minute zero. */
  lemma {:induction false} BurstTestsAny(n: nat) returns (run: seq<Step>)
    ensures Run(run).logins == 0 && Run(run).now == 0.0 && Run(run).row == Counters(0, None)
    ensures |Run(run).failures| == n && forall i :: 0 <= i < n ==> Run(run).failures[i] == 0.0
    ensures forall id :: id in Run(run).open ==> id < n
  {
    run := [];
    if n > 0 {
      run := BurstTestsAny(n - 1);
      RunSnoc(run, Check(n - 1, 0.0, false, false), n);
      run := run + [Check(n - 1, 0.0, false, false)];
    }
  }

  // --------------------------------------------------------------- tightness

  /** Wrong passwords one at a time, each at the first instant it will be looked at and recorded at once. */
  function Eager(n: nat): seq<Step> {
    if n == 0 then [] else WithPair(Eager(n - 1), n)
  }

  function Bounds(n: nat): seq<Minutes> {
    seq(n, i requires 0 <= i < n => MinMinutes(i + 1))
  }

  lemma {:induction false} EagerRun(n: nat)
    ensures
      var w := Run(Eager(n));
      && AtMost(Eager(n), 1) && w.logins == 0 && w.open == map[] && w.now == MinMinutes(n)
      && w.row == Counters(n, if n < 5 then None else Some(MinMinutes(n + 1))) && w.failures == Bounds(n)
  {
    if n > 0 {
      EagerRun(n - 1);
      EagerPair(Run(Eager(n - 1)), n);
      PairSnoc(Eager(n - 1), n, 1);
      assert Bounds(n) == Bounds(n - 1) + [MinMinutes(n)];
    }
  }

  /** The bound is exact: for every n there is a run whose failed checks come at precisely the bounds. */
  lemma BoundIsAttained(n: nat)
    ensures
      var w := Run(Eager(n));
      AtMost(Eager(n), 1) && w.logins == 0 && |w.failures| == n && BoundMetExactly(w.failures)
  {
    EagerRun(n);
    BoundsAreMet(n);
  }

  /** Every failed check comes precisely at its bound after the first. */
  ghost predicate BoundMetExactly(failures: seq<Minutes>) {
    forall i :: 0 <= i < |failures| ==> failures[i] == failures[0] + MinMinutes(i + 1)
  }

  lemma BoundsAreMet(n: nat)
    ensures |Bounds(n)| == n && BoundMetExactly(Bounds(n))
  {
  }

  /** A run with one more wrong password at its bound. */
  function WithPair(run: seq<Step>, n: nat): seq<Step> {
    run + [Check(0, MinMinutes(n), false, false)] + [Record(0, MinMinutes(n))]
  }

  lemma PairSnoc(run: seq<Step>, n: nat, c: nat)
    ensures
      var checked := Next(Run(run), Check(0, MinMinutes(n), false, false));
      var w := Next(checked, Record(0, MinMinutes(n)));
      && Run(WithPair(run, n)) == w
      && (AtMost(WithPair(run, n), c) <==> AtMost(run, c) && |checked.open| <= c && |w.open| <= c)
  {
    RunSnoc(run, Check(0, MinMinutes(n), false, false), c);
    RunSnoc(run + [Check(0, MinMinutes(n), false, false)], Record(0, MinMinutes(n)), c);
  }

  /** One more wrong password at its bound, whatever other requests are under way. */
  lemma EagerPair(w: World, n: nat)
    requires n > 0 && 0 !in w.open && w.now == MinMinutes(n - 1)
    requires w.row == Counters(n - 1, if n <= 5 then None else Some(MinMinutes(n)))
    ensures
      var checked := Next(w, Check(0, MinMinutes(n), false, false));
      var w' := Next(checked, Record(0, MinMinutes(n)));
      && |checked.open| == |w.open| + 1 && w'.open == w.open && w'.now == MinMinutes(n) && w'.logins == w.logins
      && w'.row == Counters(n, if n < 5 then None else Some(MinMinutes(n + 1)))
      && w'.failures == w.failures + [MinMinutes(n)]
  {
    MinMinutesStep(n - 1);
    MinMinutesStep(n);
    assert w.open[0 := Open(w.row, false, false)] - {0} == w.open;
  }

  // ------------------------------------------------------- locks that are taken back

  /** A step leaves an armed lock in place or arms a later one. */
  predicate LockKept(w: World, step: Step) {
    w.row.lockedUntil.Some? ==>
      var until := Next(w, step).row.lockedUntil;
      until.Some? && w.row.lockedUntil.value <= until.value
  }

  /** No run with at most c requests under way and no success takes a lock back. */
  ghost predicate LocksHold(c: nat) {
    forall run, step :: AtMost(run + [step], c) && Run(run + [step]).logins == 0 ==> LockKept(Run(run), step)
  }

  lemma SoloStepKeepsTheLock(run: seq<Step>, step: Step)
    requires AtMost(run + [step], 1) && Run(run + [step]).logins == 0
    ensures LockKept(Run(run), step)
  {
    RunSnoc(run, step, 1);
    SoloRunsAreOk(run);
    SoloKeepsTheLock(Run(run), step);
  }

  lemma SoloKeepsTheLock(w: World, step: Step)
    requires SoloOk(w) && Next(w, step).logins == 0
    ensures LockKept(w, step)
  {
    if step.Record? && step.id in w.open {
      assert OpenOk(w, w.open[step.id]);
    }
  }

  /** A request that loaded four failures and is left open while another one fails up to the n-th time. */
  function Beside(n: nat): seq<Step> {
    if n <= 4 then Eager(4) + [Check(1, 0.0, false, false)]
    else WithPair(Beside(n - 1), n)
  }

  lemma {:induction false} BesideRun(n: nat)
    requires n >= 4
    ensures
      var w := Run(Beside(n));
      && AtMost(Beside(n), 2) && w.logins == 0 && w.now == MinMinutes(n)
      && w.open == map[1 := Open(Counters(4, None), false, false)]
      && w.row == Counters(n, if n < 5 then None else Some(MinMinutes(n + 1)))
  {
    if n == 4 {
      EagerRun(4);
      AtMostGrows(Eager(4), 1, 2);
      RunSnoc(Eager(4), Check(1, 0.0, false, false), 2);
      CheckAtZero(Run(Eager(4)), 1);
    } else {
      BesideRun(n - 1);
      EagerPair(Run(Beside(n - 1)), n);
      PairSnoc(Beside(n - 1), n, 2);
    }
  }

  /** The tenth failure locks until minute ten; the stale write at minute five leaves a lock until minute six. */
  lemma StaleWriteTakesTheLockBack()
    ensures
      var w := Run(Beside(10));
      var stale := Record(1, 5.0);
      && AtMost(Beside(10) + [stale], 2) && Run(Beside(10) + [stale]).logins == 0
      && w.row == Counters(10, Some(10.0)) && Next(w, stale).row == Counters(5, Some(6.0)) && !LockKept(w, stale)
  {
    BesideRun(10);
    RunSnoc(Beside(10), Record(1, 5.0), 2);
    assert MinMinutes(10) == 5.0 && MinMinutes(11) == 10.0;
  }

  /** An armed lock is never taken back if and only if the requests of one account are handled one at a time. */
  lemma LocksHoldExactly(c: nat)
    ensures LocksHold(c) <==> c <= 1
  {
    if c <= 1 {
      forall run, step | AtMost(run + [step], c) && Run(run + [step]).logins == 0 ensures LockKept(Run(run), step) {
        AtMostGrows(run + [step], c, 1);
        SoloStepKeepsTheLock(run, step);
      }
    } else {
      StaleWriteTakesTheLockBack();
      AtMostGrows(Beside(10) + [Record(1, 5.0)], 2, c);
    }
  }
}
