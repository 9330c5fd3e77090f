/**
 The plugin catalog's last-good-copy fallback (app/plugins_catalog.py): answers
 are memoised, the last good one is kept in memory and in one state file, and a
 failed fetch falls back to memory and then to the file, which survives restarts.
 Writing the file is taken to succeed.
 */
module PluginsFallback {
  import opened Common

  datatype Key = Key(repo: string, limit: nat)

  /** What GitHub returned, and the wall-clock time of that response. */
  datatype Good = Good(releases: seq<string>, generatedAt: string)

  datatype Entry = Entry(fetchedAt: Time, good: Good)

  datatype Saved = Saved(key: Key, good: Good)

  datatype Answer = Nothing | Releases(good: Good, stale: bool)

  /** A fetch either fails or returns a possibly empty list. */
  datatype Outcome = Failed | Fetched(good: Good)

  datatype State = State(memory: map<Key, Entry>, file: Option<Saved>)

  predicate IsFresh(s: State, key: Key, now: Time, ttl: Time) {
    ttl > 0.0 && key in s.memory && now - s.memory[key].fetchedAt < ttl
  }

  function Fallback(s: State, key: Key): Answer {
    if key in s.memory && s.memory[key].good.releases != [] then Releases(s.memory[key].good, true)
    else if HasCopy(s.file, key) then Releases(s.file.value.good, true)
    else Nothing
  }

  /** The state file holds a non-empty copy of this very key. */
  predicate HasCopy(file: Option<Saved>, key: Key) {
    file.Some? && file.value.key == key && file.value.good.releases != []
  }

  function Answered(s: State, key: Key, outcome: Outcome, now: Time, ttl: Time): Answer {
    if IsFresh(s, key, now, ttl) then Releases(s.memory[key].good, false)
    else if outcome.Failed? then Fallback(s, key)
    else Releases(outcome.good, false)
  }

  function Asked(s: State, key: Key, outcome: Outcome, now: Time, ttl: Time): State {
    if IsFresh(s, key, now, ttl) || outcome.Failed? then s
    else State(s.memory[key := Entry(now, outcome.good)],
               if outcome.good.releases != [] then Some(Saved(key, outcome.good)) else s.file)
  }

  class PluginsCatalog {
    const ttl: Time
    var memory: map<Key, Entry>
    var file: Option<Saved>

    method SaveSnapshot(key: Key, good: Good)
      modifies this`file
      ensures file == Some(Saved(key, good))
    {
      file := Some(Saved(key, good));
    }

    /** Absent, foreign or empty copies are no copies. */
    method LoadSnapshot(key: Key) returns (good: Option<Good>)
      ensures good == if HasCopy(file, key) then Some(file.value.good) else None
    {
      if file.Some? && file.value.key == key && file.value.good.releases != [] {
        return Some(file.value.good);
      }
      good := None;
    }

    method GithubReleases(key: Key, outcome: Outcome, now: Time) returns (answer: Answer)
      modifies this
      ensures answer == Answered(old(State(memory, file)), key, outcome, now, ttl)
      ensures State(memory, file) == Asked(old(State(memory, file)), key, outcome, now, ttl)
    {
      if ttl > 0.0 && key in memory && now - memory[key].fetchedAt < ttl {
        return Releases(memory[key].good, false);
      }
      if outcome.Failed? {
        if key in memory && memory[key].good.releases != [] {
          return Releases(memory[key].good, true);
        }
        var saved := LoadSnapshot(key);
        answer := if saved.Some? then Releases(saved.value, true) else Nothing;
        return;
      }
      memory := memory[key := Entry(now, outcome.good)];
      if outcome.good.releases != [] {
        SaveSnapshot(key, outcome.good);
      }
      answer := Releases(outcome.good, false);
    }
  }

  // ------------------------------------------------------------------- runs

  datatype Step = Ask(key: Key, outcome: Outcome, now: Time) | Restart

  function Next(s: State, step: Step, ttl: Time): State {
    match step
    case Ask(key, outcome, now) => Asked(s, key, outcome, now, ttl)
    case Restart => s.(memory := map[])
  }

  const COLD := State(map[], None)

  function After(run: seq<Step>, ttl: Time): State {
    if run == [] then COLD else Next(After(run[..|run| - 1], ttl), run[|run| - 1], ttl)
  }

  /** The last non-empty response that GitHub gave for a key in a run, skipping questions answered from the memo. */
  function LastGood(run: seq<Step>, ttl: Time, key: Key): Option<Good> {
    if run == [] then None
    else
      var init, last := run[..|run| - 1], run[|run| - 1];
      if IsGood(After(init, ttl), last, key, ttl) then Some(last.outcome.good) else LastGood(init, ttl, key)
  }

  /** The step asks GitHub about the key and is given a list. */
  predicate IsFetched(s: State, step: Step, key: Key, ttl: Time) {
    step.Ask? && step.key == key && step.outcome.Fetched? && !IsFresh(s, key, step.now, ttl)
  }

  predicate IsGood(s: State, step: Step, key: Key, ttl: Time) {
    IsFetched(s, step, key, ttl) && step.outcome.good.releases != []
  }

  /** Neither copy is ever anything but the last good response for its key. */
  lemma {:induction false} CopiesAreLastGood(run: seq<Step>, ttl: Time, key: Key)
    ensures
      var s, last := After(run, ttl), LastGood(run, ttl, key);
      && (key in s.memory && s.memory[key].good.releases != [] ==> last == Some(s.memory[key].good))
      && (s.file.Some? && s.file.value.key == key ==> last == Some(s.file.value.good))
      && (last.Some? ==> last.value.releases != [] && s.file.Some?)
  {
    if run != [] {
      CopiesAreLastGood(run[..|run| - 1], ttl, key);
    }
  }

  /**
   In every run over any number of repositories, what a failed fetch returns is
   the last non-empty response for that very repository and limit, with its own
   time and marked stale, or nothing.
   */
  lemma FallbackIsNeverWrong(run: seq<Step>, ttl: Time, key: Key)
    ensures
      var answer := Fallback(After(run, ttl), key);
      answer != Nothing ==> LastGood(run, ttl, key).Some? && answer == Releases(LastGood(run, ttl, key).value, true)
  {
    CopiesAreLastGood(run, ttl, key);
  }

  /** Every question in the run is about one repository and limit. */
  ghost predicate OnlyAbout(run: seq<Step>, key: Key) {
    forall i :: 0 <= i < |run| && run[i].Ask? ==> run[i].key == key
  }

  lemma {:induction false} FileStaysOwn(run: seq<Step>, ttl: Time, key: Key)
    requires OnlyAbout(run, key)
    ensures After(run, ttl).file.Some? ==> After(run, ttl).file.value.key == key
  {
    if run != [] {
      FileStaysOwn(run[..|run| - 1], ttl, key);
    }
  }

  /**
   For one repository and limit, in every run of successful, empty and failed
   fetches and restarts, a failed fetch returns exactly the last non-empty
   response, and nothing only if there never was one.
   */
  lemma FallbackIsTheLastGood(run: seq<Step>, ttl: Time, key: Key)
    requires OnlyAbout(run, key)
    ensures
      var last := LastGood(run, ttl, key);
      Fallback(After(run, ttl), key) == if last.Some? then Releases(last.value, true) else Nothing
  {
    CopiesAreLastGood(run, ttl, key);
    FileStaysOwn(run, ttl, key);
  }

  /** The last list that GitHub returned for a key since the last restart, empty or not. */
  function LastFetched(run: seq<Step>, ttl: Time, key: Key): Option<Entry> {
    if run == [] then None
    else
      var init, last := run[..|run| - 1], run[|run| - 1];
      if last.Restart? then None
      else if IsFetched(After(init, ttl), last, key, ttl) then Some(Entry(last.now, last.outcome.good))
      else LastFetched(init, ttl, key)
  }

  lemma {:induction false} MemoryIsLastFetched(run: seq<Step>, ttl: Time, key: Key)
    ensures
      var s, last := After(run, ttl), LastFetched(run, ttl, key);
      (key in s.memory <==> last.Some?) && (key in s.memory ==> s.memory[key] == last.value)
  {
    if run != [] {
      MemoryIsLastFetched(run[..|run| - 1], ttl, key);
    }
  }

  /**
   Every answer, for one repository and limit, in every run. Within the TTL of the last
   list GitHub returned it is that list with its own time, unmarked. Otherwise GitHub is
   asked: a list it returns is answered unmarked, even an empty one; when it fails, the
   last non-empty response is answered with its own time and the stale mark, and nothing
   only if there never was one.
   */
  lemma AnswerIsRight(run: seq<Step>, ttl: Time, key: Key, outcome: Outcome, now: Time)
    requires OnlyAbout(run, key)
    ensures
      var answer, memo := Answered(After(run, ttl), key, outcome, now, ttl), LastFetched(run, ttl, key);
      var good := LastGood(run, ttl, key);
      if ttl > 0.0 && memo.Some? && now - memo.value.fetchedAt < ttl then
        answer == Releases(memo.value.good, false)
      else if outcome.Fetched? then
        answer == Releases(outcome.good, false)
      else
        answer == if good.Some? then Releases(good.value, true) else Nothing
  {
    MemoryIsLastFetched(run, ttl, key);
    FallbackIsTheLastGood(run, ttl, key);
  }

  /** Since the key's last good response, one for another key has been saved. */
  predicate TakenSince(run: seq<Step>, ttl: Time, key: Key) {
    run != [] &&
    var s, last := After(run[..|run| - 1], ttl), run[|run| - 1];
    !IsGood(s, last, key, ttl) &&
    ((last.Ask? && last.key != key && IsGood(s, last, last.key, ttl)) || TakenSince(run[..|run| - 1], ttl, key))
  }

  /** Since the key's last good response, the process was restarted or GitHub returned an empty list for the key. */
  predicate ForgottenSince(run: seq<Step>, ttl: Time, key: Key) {
    run != [] &&
    var s, last := After(run[..|run| - 1], ttl), run[|run| - 1];
    !IsGood(s, last, key, ttl) &&
    (last.Restart? || IsFetched(s, last, key, ttl) || ForgottenSince(run[..|run| - 1], ttl, key))
  }

  lemma {:induction false} CopiesAreLostExactly(run: seq<Step>, ttl: Time, key: Key)
    requires LastGood(run, ttl, key).Some?
    ensures
      var s := After(run, ttl);
      && s.file.Some? && (TakenSince(run, ttl, key) <==> s.file.value.key != key)
      && (ForgottenSince(run, ttl, key) <==> key !in s.memory || s.memory[key].good.releases == [])
  {
    var init, last := run[..|run| - 1], run[|run| - 1];
    if !IsGood(After(init, ttl), last, key, ttl) {
      CopiesAreLostExactly(init, ttl, key);
    }
  }

  /**
   With several repositories the one file is shared: a key that once had a good
   response has no copy left exactly when, since the last one, another key's was
   saved, and there was a restart or an empty list for this key.
   */
  lemma FallbackIsLostExactly(run: seq<Step>, ttl: Time, key: Key)
    requires LastGood(run, ttl, key).Some?
    ensures Fallback(After(run, ttl), key) == Nothing <==> TakenSince(run, ttl, key) && ForgottenSince(run, ttl, key)
  {
    CopiesAreLastGood(run, ttl, key);
    CopiesAreLostExactly(run, ttl, key);
  }

  /** Which two repositories and a restart can bring about. */
  lemma AnotherRepositoryTakesTheFile(a: Key, b: Key, x: Good, y: Good)
    requires a != b && x.releases != [] && y.releases != []
    ensures
      var run := [Ask(a, Fetched(x), 0.0), Ask(b, Fetched(y), 1.0), Restart];
      LastGood(run, 60.0, a) == Some(x) && Fallback(After(run, 60.0), a) == Nothing
  {
    var p, q, r := Ask(a, Fetched(x), 0.0), Ask(b, Fetched(y), 1.0), Restart;
    assert [p, q, r][..2] == [p, q] && [p, q][..1] == [p] && [p][..0] == [];
    assert After([], 60.0) == COLD;
    assert After([p], 60.0) == Asked(COLD, a, Fetched(x), 0.0, 60.0);
    assert After([p, q], 60.0) == Asked(After([p], 60.0), b, Fetched(y), 1.0, 60.0);
    assert LastGood([p], 60.0, a) == Some(x);
    assert LastGood([p, q], 60.0, a) == Some(x);
  }
}
