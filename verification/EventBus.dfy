/**
 The in-process audit event bus (app/event_bus.py): drop-oldest bounded queues
 fed from many threads.

 A run is any interleaving of the steps below. A publisher snapshots the
 registry under the lock and then treats its targets one at a time; the event
 loop's own thread delivers inline, every other thread appends a callback to the
 loop, which runs them first-in first-out. Subscribers read whenever they like.
 */
module EventBus {
  import opened Common

  const MAX_SUBSCRIBERS := 32
  const QUEUE_MAXSIZE := 128

  /** The thread that runs the event loop. */
  const LOOP := 0

  /** An event, tagged with its publishing thread and its number among that thread's publishes. */
  datatype Event = Event(thread: nat, number: nat, data: int)

  // ------------------------------------------------------- a bounded queue

  /** Put with drop-oldest eviction: the newest event is never the one that is lost. */
  function Pushed(queue: seq<Event>, e: Event): (r: seq<Event>)
    ensures r != [] && r[|r| - 1] == e
    ensures |queue| <= QUEUE_MAXSIZE ==> |r| <= QUEUE_MAXSIZE
  {
    if |queue| < QUEUE_MAXSIZE then queue + [e] else queue[1..] + [e]
  }

  class Queue {
    var items: seq<Event>

    method PutNowait(e: Event) returns (full: bool)
      modifies this
      ensures full <==> |old(items)| >= QUEUE_MAXSIZE
      ensures items == if full then old(items) else old(items) + [e]
    {
      full := |items| >= QUEUE_MAXSIZE;
      if !full {
        items := items + [e];
      }
    }

    method GetNowait() returns (e: Option<Event>)
      modifies this
      ensures old(items) == [] ==> e == None && items == []
      ensures old(items) != [] ==> e == Some(old(items)[0]) && items == old(items)[1..]
    {
      if items == [] {
        return None;
      }
      e := Some(items[0]);
      items := items[1..];
    }

    /** One eviction is always enough: the second put cannot find the queue full. */
    method Deliver(e: Event)
      requires |items| <= QUEUE_MAXSIZE
      modifies this
      ensures items == Pushed(old(items), e)
      ensures |items| <= QUEUE_MAXSIZE
    {
      var full := PutNowait(e);
      if full {
        var _ := GetNowait();
        full := PutNowait(e);
        assert !full;
      }
    }
  }

  /** The registry of subscriber queues, changed only under its lock. */
  class Registry {
    var queues: set<nat>

    method Register(q: nat) returns (ok: bool)
      modifies this
      ensures ok <==> |old(queues)| < MAX_SUBSCRIBERS
      ensures queues == if ok then old(queues) + {q} else old(queues)
    {
      ok := |queues| < MAX_SUBSCRIBERS;
      if ok {
        queues := queues + {q};
      }
    }

    method Unregister(q: nat)
      modifies this
      ensures queues == old(queues) - {q}
    {
      queues := set q' | q' in queues && q' != q;
    }
  }

  // ---------------------------------------------------- interleaved runs

  /** A subscriber: its queue, and what has happened to it so far. */
  datatype Sub = Sub(queue: seq<Event>, delivered: seq<Event>, received: seq<Event>, dropped: nat)

  datatype Callback = Callback(queue: nat, event: Event)

  datatype Publish = Publish(event: Event, targets: set<nat>)

  /**
   The bus, and its history: for every published event the queues registered when its
   publish began, and the deliveries that were given up because the loop was closed.
   */
  datatype Bus = Bus(registered: set<nat>, subs: map<nat, Sub>, callbacks: seq<Callback>,
                     publishing: map<nat, Publish>, published: map<nat, nat>,
                     sent: map<Event, set<nat>>, lost: set<Callback>)

  datatype Step =
    | Subscribe(queue: nat)
    | Unsubscribe(queue: nat)
    | PublishBegin(thread: nat, data: int)
    | PublishNext(thread: nat, queue: nat, loopClosed: bool)
    | PublishEnd(thread: nat)
    | RunCallback
    | Read(queue: nat)

  const INITIAL := Bus({}, map[], [], map[], map[], map[], {})

  function Published(s: Bus, t: nat): nat {
    if t in s.published then s.published[t] else 0
  }

  predicate Enabled(s: Bus, step: Step) {
    match step
    case Subscribe(q) => q !in s.subs
    case Unsubscribe(q) => true
    case PublishBegin(t, _) => t !in s.publishing
    case PublishNext(t, q, _) => t in s.publishing && q in s.publishing[t].targets && q in s.subs
    case PublishEnd(t) => t in s.publishing && s.publishing[t].targets == {}
    case RunCallback => s.callbacks != [] && s.callbacks[0].queue in s.subs
    case Read(q) => q in s.subs && s.subs[q].queue != []
  }

  function Delivered(sub: Sub, e: Event): Sub {
    sub.(queue := Pushed(sub.queue, e), delivered := sub.delivered + [e],
         dropped := sub.dropped + if |sub.queue| < QUEUE_MAXSIZE then 0 else 1)
  }

  function Taken(sub: Sub): Sub
    requires sub.queue != []
  {
    sub.(queue := sub.queue[1..], received := sub.received + [sub.queue[0]])
  }

  function Apply(s: Bus, step: Step): Bus
    requires Enabled(s, step)
  {
    match step
    case Subscribe(q) =>
      if |s.registered| >= MAX_SUBSCRIBERS then s
      else s.(registered := s.registered + {q}, subs := s.subs[q := Sub([], [], [], 0)])
    case Unsubscribe(q) => s.(registered := s.registered - {q})
    case PublishBegin(t, data) =>
      var n := Published(s, t) + 1;
      var e := Event(t, n, data);
      s.(publishing := s.publishing[t := Publish(e, s.registered)], published := s.published[t := n],
         sent := s.sent[e := s.registered])
    case PublishNext(t, q, loopClosed) =>
      var p := s.publishing[t];
      var s' := s.(publishing := s.publishing[t := p.(targets := p.targets - {q})]);
      if t == LOOP then s'.(subs := s.subs[q := Delivered(s.subs[q], p.event)])
      else if loopClosed then s'.(lost := s.lost + {Callback(q, p.event)})
      else s'.(callbacks := s.callbacks + [Callback(q, p.event)])
    case PublishEnd(t) => s.(publishing := s.publishing - {t})
    case RunCallback =>
      var c := s.callbacks[0];
      s.(callbacks := s.callbacks[1..], subs := s.subs[c.queue := Delivered(s.subs[c.queue], c.event)])
    case Read(q) => s.(subs := s.subs[q := Taken(s.subs[q])])
  }

  /** The state after a run; a step that is not enabled does nothing. */
  function After(run: seq<Step>): Bus {
    if run == [] then INITIAL
    else
      var s, step := After(run[..|run| - 1]), run[|run| - 1];
      if Enabled(s, step) then Apply(s, step) else s
  }

  // ------------------------------------------------- what a subscriber sees

  ghost predicate IsSubsequence(a: seq<Event>, b: seq<Event>) {
    a == [] ||
    (b != [] &&
     (IsSubsequence(a, b[..|b| - 1]) ||
      (a[|a| - 1] == b[|b| - 1] && IsSubsequence(a[..|a| - 1], b[..|b| - 1]))))
  }

  lemma {:induction false} SubsequenceGrows(a: seq<Event>, b: seq<Event>, c: seq<Event>)
    requires IsSubsequence(a, b)
    ensures IsSubsequence(a, b + c)
    ensures IsSubsequence(a + c, b + c)
  {
    if c == [] {
      assert a + c == a && b + c == b;
    } else {
      var init := c[..|c| - 1];
      SubsequenceGrows(a, b, init);
      assert (b + c)[..|b + c| - 1] == b + init;
      assert (a + c)[..|a + c| - 1] == a + init;
    }
  }

  /** The part of the deliveries that has left the queue. */
  function Gone(sub: Sub): seq<Event>
    requires |sub.queue| <= |sub.delivered|
  {
    sub.delivered[..|sub.delivered| - |sub.queue|]
  }

  ghost predicate SubOk(sub: Sub) {
    && |sub.queue| <= QUEUE_MAXSIZE && |sub.queue| <= |sub.delivered|
    && sub.queue == sub.delivered[|sub.delivered| - |sub.queue|..]
    && IsSubsequence(sub.received, Gone(sub))
    && |sub.received| + sub.dropped + |sub.queue| == |sub.delivered|
    && (sub.dropped > 0 ==> |sub.delivered| > QUEUE_MAXSIZE)
  }

  lemma DeliveredOk(sub: Sub, e: Event)
    requires SubOk(sub)
    ensures SubOk(Delivered(sub, e))
  {
    var next := Delivered(sub, e);
    if |sub.queue| < QUEUE_MAXSIZE {
      assert Gone(next) == Gone(sub);
    } else {
      assert Gone(next) == Gone(sub) + [sub.queue[0]];
      SubsequenceGrows(sub.received, Gone(sub), [sub.queue[0]]);
    }
  }

  lemma TakenOk(sub: Sub)
    requires SubOk(sub) && sub.queue != []
    ensures SubOk(Taken(sub))
  {
    assert Gone(Taken(sub)) == Gone(sub) + [sub.queue[0]];
    SubsequenceGrows(sub.received, Gone(sub), [sub.queue[0]]);
  }

  lemma StepKeepsSub(s: Bus, step: Step, q: nat)
    requires Enabled(s, step) && q in s.subs && SubOk(s.subs[q])
    ensures q in Apply(s, step).subs && SubOk(Apply(s, step).subs[q])
  {
    match step
    case PublishNext(t, _, _) => DeliveredOk(s.subs[q], s.publishing[t].event);
    case RunCallback => DeliveredOk(s.subs[q], s.callbacks[0].event);
    case Read(_) =>
      if s.subs[q].queue != [] {
        TakenOk(s.subs[q]);
      }
    case _ =>
  }

  lemma {:induction false} SubscribersAreOk(run: seq<Step>, q: nat)
    requires q in After(run).subs
    ensures SubOk(After(run).subs[q])
  {
    if run != [] {
      var s, step := After(run[..|run| - 1]), run[|run| - 1];
      if q in s.subs {
        SubscribersAreOk(run[..|run| - 1], q);
        if Enabled(s, step) {
          StepKeepsSub(s, step, q);
        }
      }
    }
  }

  /**
   In every interleaving, a subscriber's queue is a contiguous suffix of its
   deliveries and never exceeds its cap; what it received followed by what is
   queued is a subsequence of the deliveries; every delivery is received, dropped or
   still queued; and nothing is dropped before more than 128 have been delivered.
   */
  lemma QueueIsALossySuffix(run: seq<Step>, q: nat)
    requires q in After(run).subs
    ensures
      var sub := After(run).subs[q];
      && |sub.queue| <= 128
      && (exists n :: 0 <= n <= |sub.delivered| && sub.queue == sub.delivered[n..])
      && IsSubsequence(sub.received + sub.queue, sub.delivered)
      && |sub.received| + sub.dropped + |sub.queue| == |sub.delivered|
      && (|sub.delivered| <= 128 ==> sub.dropped == 0)
  {
    SubscribersAreOk(run, q);
    SubIsLossy(After(run).subs[q]);
  }

  lemma SubIsLossy(sub: Sub)
    requires SubOk(sub)
    ensures exists n :: 0 <= n <= |sub.delivered| && sub.queue == sub.delivered[n..]
    ensures IsSubsequence(sub.received + sub.queue, sub.delivered)
  {
    SubsequenceGrows(sub.received, Gone(sub), sub.queue);
    assert Gone(sub) + sub.queue == sub.delivered;
  }

  // ------------------------------------------------------------ the registry

  ghost predicate RegistryOk(s: Bus) {
    && |s.registered| <= 32
    && s.registered <= s.subs.Keys
    && (forall t :: t in s.publishing ==> s.publishing[t].targets <= s.subs.Keys)
    && (forall i :: 0 <= i < |s.callbacks| ==> s.callbacks[i].queue in s.subs)
  }

  /**
   At most 32 queues are registered, and every queue a publisher or a callback
   still refers to exists, so no delivery step is ever blocked.
   */
  lemma {:induction false} RegistryIsBounded(run: seq<Step>)
    ensures RegistryOk(After(run))
  {
    if run != [] {
      var s, step := After(run[..|run| - 1]), run[|run| - 1];
      RegistryIsBounded(run[..|run| - 1]);
      if Enabled(s, step) {
        if step.Unsubscribe? {
          RemovingKeepsSmall(s.registered, step.queue);
        } else {
          StepKeepsRegistry(s, step);
        }
      }
    }
  }

  lemma RemovingKeepsSmall(queues: set<nat>, q: nat)
    ensures |queues - {q}| <= |queues|
  {
    if q !in queues {
      assert queues - {q} == queues;
    }
  }

  lemma StepKeepsRegistry(s: Bus, step: Step)
    requires RegistryOk(s) && Enabled(s, step) && !step.Unsubscribe?
    ensures RegistryOk(Apply(s, step))
  {
  }

  // --------------------------------------------------- order within a thread

  function EventsFor(cs: seq<Callback>, q: nat): seq<Event> {
    if cs == [] then []
    else EventsFor(cs[..|cs| - 1], q) + if cs[|cs| - 1].queue == q then [cs[|cs| - 1].event] else []
  }

  /** Everything delivered to a subscriber, then everything the loop still has to deliver to it. */
  function Line(s: Bus, q: nat): seq<Event>
    requires q in s.subs
  {
    s.subs[q].delivered + EventsFor(s.callbacks, q)
  }

  /** Events of one thread appear in the order it published them, each at most once. */
  ghost predicate InOrder(line: seq<Event>) {
    forall i, j :: 0 <= i < j < |line| && line[i].thread == line[j].thread ==> line[i].number < line[j].number
  }

  ghost predicate PublishersOk(s: Bus) {
    forall t :: t in s.publishing ==>
      s.publishing[t].event.thread == t && s.publishing[t].event.number == Published(s, t)
  }

  /** The largest number a line may hold for a thread: its current event is still to come while it owes it. */
  function Bound(s: Bus, q: nat, t: nat): int {
    if t in s.publishing && q in s.publishing[t].targets then Published(s, t) - 1 else Published(s, t)
  }

  ghost predicate Below(line: seq<Event>, s: Bus, q: nat) {
    forall i :: 0 <= i < |line| ==> line[i].number <= Bound(s, q, line[i].thread)
  }

  ghost predicate OffLoop(waiting: seq<Event>) {
    forall i :: 0 <= i < |waiting| ==> waiting[i].thread != LOOP
  }

  ghost predicate LineOk(s: Bus, q: nat)
    requires q in s.subs
  {
    InOrder(Line(s, q)) && Below(Line(s, q), s, q) && OffLoop(EventsFor(s.callbacks, q))
  }

  lemma EventsForSnoc(cs: seq<Callback>, c: Callback, q: nat)
    ensures EventsFor(cs + [c], q) == EventsFor(cs, q) + if c.queue == q then [c.event] else []
  {
    assert (cs + [c])[..|cs|] == cs;
  }

  lemma {:induction false} EventsForTail(cs: seq<Callback>, q: nat)
    requires cs != []
    ensures EventsFor(cs, q) == (if cs[0].queue == q then [cs[0].event] else []) + EventsFor(cs[1..], q)
  {
    if |cs| == 1 {
      assert cs[..0] == [] && cs[1..] == [];
    } else {
      var init := cs[..|cs| - 1];
      EventsForTail(init, q);
      assert init[1..] == cs[1..][..|cs[1..]| - 1];
    }
  }

  lemma {:induction false} NoEventsForUnknown(cs: seq<Callback>, q: nat)
    requires forall i :: 0 <= i < |cs| ==> cs[i].queue != q
    ensures EventsFor(cs, q) == []
  {
    if cs != [] {
      NoEventsForUnknown(cs[..|cs| - 1], q);
    }
  }

  /** Adding a thread's newest event after all its others, with only other threads' events behind it. */
  lemma InOrderInsert(before: seq<Event>, e: Event, after: seq<Event>)
    requires InOrder(before + after)
    requires forall i :: 0 <= i < |before| && before[i].thread == e.thread ==> before[i].number < e.number
    requires forall i :: 0 <= i < |after| ==> after[i].thread != e.thread
    ensures InOrder(before + [e] + after)
  {
    var was, now := before + after, before + [e] + after;
    forall i, j | 0 <= i < j < |now| && now[i].thread == now[j].thread
      ensures now[i].number < now[j].number
    {
      var n := |before|;
      if i != n && j != n {
        var i', j' := if i < n then i else i - 1, if j < n then j else j - 1;
        assert was[i'] == now[i] && was[j'] == now[j];
      } else if j == n {
        assert before[i] == now[i];
      }
    }
  }

  lemma BoundsOnlyGrow(s: Bus, step: Step, q: nat, t: nat)
    requires Enabled(s, step) && PublishersOk(s) && q in s.subs
    ensures Bound(s, q, t) <= Bound(Apply(s, step), q, t)
  {
  }

  lemma BelowStays(line: seq<Event>, s: Bus, step: Step, q: nat)
    requires Enabled(s, step) && PublishersOk(s) && q in s.subs && Below(line, s, q)
    ensures Below(line, Apply(s, step), q)
  {
    forall i | 0 <= i < |line| ensures line[i].number <= Bound(Apply(s, step), q, line[i].thread) {
      BoundsOnlyGrow(s, step, q, line[i].thread);
    }
  }

  /** A publisher hands its current event to a subscriber it owes it to. */
  lemma PublishNextKeepsLine(s: Bus, t: nat, q: nat, loopClosed: bool)
    requires Enabled(s, PublishNext(t, q, loopClosed)) && PublishersOk(s) && LineOk(s, q)
    ensures LineOk(Apply(s, PublishNext(t, q, loopClosed)), q)
  {
    var s' := Apply(s, PublishNext(t, q, loopClosed));
    var e, done, waiting := s.publishing[t].event, s.subs[q].delivered, EventsFor(s.callbacks, q);
    BelowStays(Line(s, q), s, PublishNext(t, q, loopClosed), q);
    if t == LOOP {
      assert forall i :: 0 <= i < |done| ==> Line(s, q)[i] == done[i];
      InOrderInsert(done, e, waiting);
      BelowInsert(done, e, waiting, s', q);
    } else if !loopClosed {
      EventsForSnoc(s.callbacks, Callback(q, e), q);
      assert Line(s, q) + [] == Line(s, q) && Line(s', q) == Line(s, q) + [e] + [];
      InOrderInsert(Line(s, q), e, []);
      BelowInsert(Line(s, q), e, [], s', q);
    }
  }

  lemma BelowInsert(before: seq<Event>, e: Event, after: seq<Event>, s: Bus, q: nat)
    requires Below(before + after, s, q) && e.number <= Bound(s, q, e.thread)
    ensures Below(before + [e] + after, s, q)
  {
    var was, now := before + after, before + [e] + after;
    forall i | 0 <= i < |now| ensures now[i].number <= Bound(s, q, now[i].thread) {
      if i != |before| {
        assert now[i] == was[if i < |before| then i else i - 1];
      }
    }
  }

  lemma StepKeepsLine(s: Bus, step: Step, q: nat)
    requires Enabled(s, step) && PublishersOk(s) && q in s.subs && LineOk(s, q)
    ensures LineOk(Apply(s, step), q)
  {
    if step.PublishNext? && step.queue == q {
      PublishNextKeepsLine(s, step.thread, q, step.loopClosed);
    } else {
      BelowStays(Line(s, q), s, step, q);
      OthersKeepLine(s, step, q);
    }
  }

  lemma OthersKeepLine(s: Bus, step: Step, q: nat)
    requires Enabled(s, step) && q in s.subs
    requires !(step.PublishNext? && step.queue == q)
    ensures Line(Apply(s, step), q) == Line(s, q)
    ensures OffLoop(EventsFor(s.callbacks, q)) ==> OffLoop(EventsFor(Apply(s, step).callbacks, q))
  {
    match step
    case PublishNext(t, r, loopClosed) => OtherTargetKeepsLine(s, t, r, loopClosed, q);
    case RunCallback => CallbackKeepsLine(s, q);
    case _ =>
  }

  lemma OtherTargetKeepsLine(s: Bus, t: nat, r: nat, loopClosed: bool, q: nat)
    requires Enabled(s, PublishNext(t, r, loopClosed)) && q in s.subs && r != q
    ensures
      var s' := Apply(s, PublishNext(t, r, loopClosed));
      Line(s', q) == Line(s, q) && EventsFor(s'.callbacks, q) == EventsFor(s.callbacks, q)
  {
    EventsForSnoc(s.callbacks, Callback(r, s.publishing[t].event), q);
  }

  /** Running the oldest callback moves its event from the waiting part to the delivered part. */
  lemma CallbackKeepsLine(s: Bus, q: nat)
    requires Enabled(s, RunCallback) && q in s.subs
    ensures Line(Apply(s, RunCallback), q) == Line(s, q)
    ensures OffLoop(EventsFor(s.callbacks, q)) ==> OffLoop(EventsFor(s.callbacks[1..], q))
  {
    var c := s.callbacks[0];
    EventsForTail(s.callbacks, q);
    LineShift(s.subs[q].delivered, c.event, EventsFor(s.callbacks[1..], q));
    if c.queue != q {
      assert [] + EventsFor(s.callbacks[1..], q) == EventsFor(s.callbacks[1..], q);
    }
  }

  lemma LineShift(done: seq<Event>, e: Event, rest: seq<Event>)
    ensures done + ([e] + rest) == (done + [e]) + rest
    ensures OffLoop([e] + rest) ==> OffLoop(rest)
  {
    assert forall i :: 0 <= i < |rest| ==> rest[i] == ([e] + rest)[i + 1];
  }

  lemma {:induction false} LinesAreOk(run: seq<Step>, q: nat)
    requires q in After(run).subs
    ensures PublishersOk(After(run)) && LineOk(After(run), q)
  {
    var s, step := After(run[..|run| - 1]), run[|run| - 1];
    PublishersAreOk(run[..|run| - 1]);
    PublishersAreOk(run);
    RegistryIsBounded(run[..|run| - 1]);
    if q in s.subs {
      LinesAreOk(run[..|run| - 1], q);
      if Enabled(s, step) {
        StepKeepsLine(s, step, q);
      }
    } else {
      NoEventsForUnknown(s.callbacks, q);
    }
  }

  lemma {:induction false} PublishersAreOk(run: seq<Step>)
    ensures PublishersOk(After(run))
  {
    if run != [] {
      var s, step := After(run[..|run| - 1]), run[|run| - 1];
      PublishersAreOk(run[..|run| - 1]);
      if Enabled(s, step) {
        StepKeepsPublishers(s, step);
      }
    }
  }

  lemma StepKeepsPublishers(s: Bus, step: Step)
    requires Enabled(s, step) && PublishersOk(s)
    ensures PublishersOk(Apply(s, step))
  {
  }

  lemma {:induction false} SubsequenceStaysInOrder(a: seq<Event>, b: seq<Event>)
    requires IsSubsequence(a, b) && InOrder(b)
    ensures InOrder(a) && forall e :: e in a ==> e in b
  {
    if a != [] {
      var init := b[..|b| - 1];
      if IsSubsequence(a, init) {
        SubsequenceStaysInOrder(a, init);
      } else {
        var rest, last := a[..|a| - 1], a[|a| - 1];
        SubsequenceStaysInOrder(rest, init);
        forall k | 0 <= k < |rest| && rest[k].thread == last.thread ensures rest[k].number < last.number {
          assert rest[k] in init;
          var i :| 0 <= i < |init| && init[i] == rest[k];
          assert b[i] == rest[k] && b[|b| - 1] == last;
        }
        assert rest + [] == rest && a == rest + [last] + [];
        InOrderInsert(rest, last, []);
      }
    }
  }

  /**
   In every interleaving, a subscriber never receives two events of one
   publishing thread out of order, and never one of them twice.
   */
  lemma ReceivedInPublishOrder(run: seq<Step>, q: nat)
    requires q in After(run).subs
    ensures InOrder(After(run).subs[q].received)
  {
    var s := After(run);
    var sub := s.subs[q];
    LinesAreOk(run, q);
    SubscribersAreOk(run, q);
    assert forall i :: 0 <= i < |Gone(sub)| ==> Gone(sub)[i] == Line(s, q)[i];
    SubsequenceStaysInOrder(sub.received, Gone(sub));
  }

  // --------------------------------------------------- events do arrive

  /** The event is under way to the queue: its publisher still owes it, or gave it up, or it is in line. */
  ghost predicate Reaches(s: Bus, e: Event, q: nat) {
    && q in s.subs
    && (|| (e.thread in s.publishing && s.publishing[e.thread].event == e && q in s.publishing[e.thread].targets)
        || Callback(q, e) in s.lost
        || e in Line(s, q))
  }

  ghost predicate SentOk(s: Bus) {
    forall e, q :: e in s.sent && q in s.sent[e] ==> Reaches(s, e, q)
  }

  lemma LineOnlyGrows(s: Bus, step: Step, e: Event, q: nat)
    requires Enabled(s, step) && q in s.subs && e in Line(s, q)
    ensures q in Apply(s, step).subs && e in Line(Apply(s, step), q)
  {
    if step.PublishNext? && step.queue == q {
      NextInsertsIntoLine(s, step.thread, q, step.loopClosed);
    } else {
      OthersKeepLine(s, step, q);
    }
  }

  /** Handing on an event puts it into the line: delivered at once on the loop's thread, else as the last callback. */
  lemma NextInsertsIntoLine(s: Bus, t: nat, q: nat, loopClosed: bool)
    requires Enabled(s, PublishNext(t, q, loopClosed))
    ensures
      var s', e := Apply(s, PublishNext(t, q, loopClosed)), s.publishing[t].event;
      var done, waiting := s.subs[q].delivered, EventsFor(s.callbacks, q);
      Line(s', q) == if t == LOOP then done + [e] + waiting
                     else if loopClosed then done + waiting
                     else done + waiting + [e]
  {
    EventsForSnoc(s.callbacks, Callback(q, s.publishing[t].event), q);
  }

  lemma StepKeepsReaching(s: Bus, step: Step, e: Event, q: nat)
    requires Enabled(s, step) && PublishersOk(s) && Reaches(s, e, q)
    ensures Reaches(Apply(s, step), e, q)
  {
    if e in Line(s, q) {
      LineOnlyGrows(s, step, e, q);
    } else if step.PublishNext? && step.thread == e.thread && step.queue == q && Callback(q, e) !in s.lost {
      NextInsertsIntoLine(s, step.thread, q, step.loopClosed);
    }
  }

  lemma StepKeepsSent(s: Bus, step: Step)
    requires Enabled(s, step) && PublishersOk(s) && RegistryOk(s) && SentOk(s)
    ensures SentOk(Apply(s, step))
  {
    var s' := Apply(s, step);
    forall e, q | e in s'.sent && q in s'.sent[e] ensures Reaches(s', e, q) {
      if step.PublishBegin? && e == s'.publishing[step.thread].event {
        assert q in s.registered;
      } else {
        assert e in s.sent && q in s.sent[e];
        StepKeepsReaching(s, step, e, q);
      }
    }
  }

  lemma {:induction false} RunKeepsSent(run: seq<Step>)
    ensures SentOk(After(run))
  {
    if run != [] {
      var s, step := After(run[..|run| - 1]), run[|run| - 1];
      RunKeepsSent(run[..|run| - 1]);
      PublishersAreOk(run[..|run| - 1]);
      RegistryIsBounded(run[..|run| - 1]);
      if Enabled(s, step) {
        StepKeepsSent(s, step);
      }
    }
  }

  /** The last step hands an event of another thread to a closed loop. */
  ghost predicate GivesUp(run: seq<Step>, q: nat, e: Event) {
    && run != [] && run[|run| - 1] == PublishNext(e.thread, q, true) && e.thread != LOOP
    && Enabled(After(run[..|run| - 1]), run[|run| - 1]) && After(run[..|run| - 1]).publishing[e.thread].event == e
  }

  /** A delivery is given up only by a step of the run that met a closed loop. */
  lemma {:induction false} LostOnlyToAClosedLoop(run: seq<Step>, q: nat, e: Event)
    requires Callback(q, e) in After(run).lost
    ensures exists n :: 0 <= n <= |run| && GivesUp(run[..n], q, e)
  {
    var init, step := run[..|run| - 1], run[|run| - 1];
    PublishersAreOk(init);
    if Callback(q, e) in After(init).lost {
      LostOnlyToAClosedLoop(init, q, e);
      var n :| 0 <= n <= |init| && GivesUp(init[..n], q, e);
      assert run[..n] == init[..n];
    } else {
      assert run[..|run|] == run;
      assert GivesUp(run[..|run|], q, e);
    }
  }

  lemma {:induction false} OrderMeansOnce(line: seq<Event>, e: Event)
    requires InOrder(line) && e in line
    ensures multiset(line)[e] == 1
  {
    var init, last := line[..|line| - 1], line[|line| - 1];
    assert line == init + [last];
    if e == last {
      forall i | 0 <= i < |init| ensures init[i] != e {
        assert line[i] == init[i] && line[|line| - 1] == e;
      }
    } else {
      OrderMeansOnce(init, e);
    }
  }

  /**
   In every run, a queue that was registered when a publish began has the event
   exactly once among what was delivered to it and what the loop still has to deliver,
   from the moment its publisher has handed it on, unless the loop was closed then.
   */
  lemma EveryPublishArrives(run: seq<Step>, e: Event, q: nat)
    requires e in After(run).sent && q in After(run).sent[e]
    ensures
      var s := After(run);
      && q in s.subs
      && (|| (e.thread in s.publishing && s.publishing[e.thread].event == e && q in s.publishing[e.thread].targets)
          || (exists n :: 0 <= n <= |run| && GivesUp(run[..n], q, e))
          || multiset(Line(s, q))[e] == 1)
  {
    var s := After(run);
    RunKeepsSent(run);
    assert Reaches(s, e, q);
    if e in Line(s, q) {
      LinesAreOk(run, q);
      OrderMeansOnce(Line(s, q), e);
    } else if Callback(q, e) in s.lost {
      LostOnlyToAClosedLoop(run, q, e);
    }
  }

  /** What a publish that begins now is sent to: exactly the queues registered now. */
  lemma PublishIsSentToAll(run: seq<Step>, t: nat, data: int)
    requires t !in After(run).publishing
    ensures
      var s, s' := After(run), After(run + [PublishBegin(t, data)]);
      && t in s'.publishing && s'.publishing[t].event.thread == t && s'.publishing[t].event.data == data
      && s'.publishing[t].event in s'.sent && s'.sent[s'.publishing[t].event] == s.registered
  {
    assert (run + [PublishBegin(t, data)])[..|run|] == run;
  }

  // -------------------------------------------- the loop gets round to it

  /** The event has been delivered, or waits among the first k callbacks. */
  ghost predicate Within(s: Bus, e: Event, q: nat, k: int) {
    && q in s.subs
    && (e in s.subs[q].delivered || exists i :: 0 <= i < k && i < |s.callbacks| && s.callbacks[i] == Callback(q, e))
  }

  /** How many callbacks a continuation runs. */
  function Ran(run: seq<Step>, more: seq<Step>): nat {
    if more == [] then 0
    else
      var before := After(run + more[..|more| - 1]);
      Ran(run, more[..|more| - 1]) + if more[|more| - 1].RunCallback? && Enabled(before, RunCallback) then 1 else 0
  }

  lemma AfterMore(run: seq<Step>, more: seq<Step>)
    requires more != []
    ensures
      var s, step := After(run + more[..|more| - 1]), more[|more| - 1];
      After(run + more) == if Enabled(s, step) then Apply(s, step) else s
  {
    assert (run + more)[..|run + more| - 1] == run + more[..|more| - 1];
  }

  lemma StepKeepsWithin(s: Bus, step: Step, e: Event, q: nat, k: int)
    requires Enabled(s, step) && Within(s, e, q, k)
    ensures Within(Apply(s, step), e, q, if step.RunCallback? then k - 1 else k)
  {
    var s' := Apply(s, step);
    if e in s.subs[q].delivered {
      assert e in s'.subs[q].delivered;
    } else {
      var i :| 0 <= i < k && i < |s.callbacks| && s.callbacks[i] == Callback(q, e);
      if step.RunCallback? {
        assert i > 0 ==> s'.callbacks[i - 1] == Callback(q, e);
      } else {
        assert s'.callbacks[i] == Callback(q, e);
      }
    }
  }

  lemma {:induction false} RunKeepsWithin(run: seq<Step>, more: seq<Step>, e: Event, q: nat, k: int)
    requires Within(After(run), e, q, k)
    ensures Within(After(run + more), e, q, k - Ran(run, more))
  {
    if more == [] {
      assert run + more == run;
    } else {
      var init, step := more[..|more| - 1], more[|more| - 1];
      RunKeepsWithin(run, init, e, q, k);
      AfterMore(run, more);
      if Enabled(After(run + init), step) {
        StepKeepsWithin(After(run + init), step, e, q, k - Ran(run, init));
      }
    }
  }

  lemma {:induction false} WaitingIsACallback(cs: seq<Callback>, e: Event, q: nat) returns (i: nat)
    requires e in EventsFor(cs, q)
    ensures i < |cs| && cs[i] == Callback(q, e)
  {
    var init, last := cs[..|cs| - 1], cs[|cs| - 1];
    if e in EventsFor(init, q) {
      i := WaitingIsACallback(init, e, q);
    } else {
      i := |cs| - 1;
    }
  }

  /**
   Once the loop has run as many callbacks as were waiting, every event in a
   subscriber's line has been delivered, so it is received, queued or dropped.
   */
  lemma LineIsDelivered(run: seq<Step>, more: seq<Step>, e: Event, q: nat)
    requires q in After(run).subs && e in Line(After(run), q)
    requires Ran(run, more) >= |After(run).callbacks|
    ensures q in After(run + more).subs && e in After(run + more).subs[q].delivered
  {
    var s := After(run);
    if e !in s.subs[q].delivered {
      var i := WaitingIsACallback(s.callbacks, e, q);
      assert Within(s, e, q, |s.callbacks|);
    }
    RunKeepsWithin(run, more, e, q, |s.callbacks|);
  }

  /** A waiting callback can always run. */
  lemma CallbacksCanRun(run: seq<Step>)
    requires After(run).callbacks != []
    ensures Enabled(After(run), RunCallback)
  {
    RegistryIsBounded(run);
  }

  // ------------------------------------------------------ who is registered

  /** Subscribing a fresh queue registers it exactly when fewer than 32 are. */
  lemma SubscribeRegisters(run: seq<Step>, q: nat)
    requires q !in After(run).subs
    ensures
      var s, s' := After(run), After(run + [Subscribe(q)]);
      && (|s.registered| < 32 ==> s'.registered == s.registered + {q})
      && (|s.registered| >= 32 ==> s' == s)
  {
    assert (run + [Subscribe(q)])[..|run|] == run;
  }

  lemma {:induction false} StaysOut(run: seq<Step>, more: seq<Step>, q: nat)
    requires q in After(run).subs && q !in After(run).registered
    ensures q in After(run + more).subs && q !in After(run + more).registered
  {
    if more == [] {
      assert run + more == run;
    } else {
      var s, step := After(run + more[..|more| - 1]), more[|more| - 1];
      StaysOut(run, more[..|more| - 1], q);
      AfterMore(run, more);
      if Enabled(s, step) {
        StepKeepsOut(s, step, q);
      }
    }
  }

  lemma StepKeepsOut(s: Bus, step: Step, q: nat)
    requires Enabled(s, step) && q in s.subs && q !in s.registered
    ensures q in Apply(s, step).subs && q !in Apply(s, step).registered
  {
  }

  /** Once unsubscribed, a queue is never registered again, so no later publish is sent to it. */
  lemma UnsubscribedStaysOut(run: seq<Step>, q: nat, more: seq<Step>)
    requires q in After(run).subs
    ensures q !in After(run + [Unsubscribe(q)] + more).registered
  {
    assert (run + [Unsubscribe(q)])[..|run|] == run;
    StaysOut(run + [Unsubscribe(q)], more, q);
  }
}
