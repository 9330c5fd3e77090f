/**
 The cached public catalog response (app/api_catalog.py, app/_cache.py): the
 serialized body is held for 30 seconds, the timestamp that goes with an
 unchanged content for 24 hours, and every mutation of the catalog drops both.
 */
module CatalogResponse {
  import opened Common
  import opened TtlCache

  const PAGE_TTL: Time := 30.0
  const STABLE_TTL: Time := 86400.0

  /** The catalog document without its timestamp. */
  type Content(==, !new)

  /** The serialized document; serialization keeps content and timestamp apart. */
  datatype Body = Body(content: Content, generatedAt: Time)

  datatype Held = Page(etag: string, body: Body) | Stable(etag: string, generatedAt: Time)

  /** The truncated hash of the content; nothing is assumed about collisions. */
  type Tagger = Content -> string

  datatype Response = NotModified(etag: string) | Full(etag: string, body: Body)

  function Answer(etag: string, body: Body, ifNoneMatch: Option<string>): Response {
    if ifNoneMatch == Some(etag) then NotModified(etag) else Full(etag, body)
  }

  /** The timestamp held for an unchanged content is still good. */
  predicate KeepsStable(store: map<string, Entry<Held>>, content: Content, tag: Tagger, now: Time) {
    var stable := Lookup(store, "stable", now);
    stable.Some? && stable.value.Stable? && stable.value.etag == tag(content)
  }

  /** The document a rebuild produces: an unchanged content keeps its timestamp. */
  function Rebuilt(store: map<string, Entry<Held>>, content: Content, tag: Tagger, now: Time): Body {
    Body(content, if KeepsStable(store, content, tag, now) then store["stable"].value.generatedAt else now)
  }

  function AfterRead(store: map<string, Entry<Held>>, content: Content, tag: Tagger, now: Time)
    : map<string, Entry<Held>>
  {
    if Lookup(store, "catalog", now).Some? then store
    else
      var body := Rebuilt(store, content, tag, now);
      var kept := if KeepsStable(store, content, tag, now) then store
                  else Stored(store, "stable", Stable(tag(content), now), now, STABLE_TTL);
      Stored(kept, "catalog", Page(tag(content), body), now, PAGE_TTL)
  }

  class CatalogApi {
    const cache: Cache<Held>

    /** The cache has the default TTL of pages, and holds a page under "catalog". */
    ghost predicate Valid()
      reads cache
    {
      cache.ttl == PAGE_TTL && ("catalog" in cache.store ==> cache.store["catalog"].value.Page?)
    }

    constructor ()
      ensures Valid() && fresh(cache) && cache.store == map[]
    {
      cache := new Cache(PAGE_TTL);
    }

    method GetCatalog(content: Content, tag: Tagger, now: Time, ifNoneMatch: Option<string>) returns (r: Response)
      requires Valid()
      modifies cache
      ensures Valid() && cache.store == AfterRead(old(cache.store), content, tag, now)
      ensures "catalog" in cache.store
      ensures r == Answer(cache.store["catalog"].value.etag, cache.store["catalog"].value.body, ifNoneMatch)
    {
      var cached := cache.Get("catalog", now);
      if cached.None? {
        var etag := tag(content);
        var at := now;
        var stable := cache.Get("stable", now);
        if stable.Some? && stable.value.Stable? && stable.value.etag == etag {
          at := stable.value.generatedAt;
        } else {
          cache.Set("stable", Stable(etag, at), now, Some(STABLE_TTL));
        }
        cached := Some(Page(etag, Body(content, at)));
        cache.Set("catalog", cached.value, now, None);
      }
      var etag, body := cached.value.etag, cached.value.body;
      r := if ifNoneMatch == Some(etag) then NotModified(etag) else Full(etag, body);
    }

    method Invalidate()
      requires Valid()
      modifies cache
      ensures Valid() && cache.store == map[]
    {
      cache.Invalidate(None);
    }
  }

  // ------------------------------------------------------------------- runs

  datatype World = World(now: Time, content: Content, store: map<string, Entry<Held>>)

  datatype Step = Tick(elapsed: Time) | Read | Mutate(content: Content, invalidates: bool)

  /** A mutation that changes the catalog invalidates the cache; time does not run backwards. */
  predicate Enabled(w: World, step: Step) {
    match step
    case Tick(elapsed) => elapsed >= 0.0
    case Read => true
    case Mutate(content, invalidates) => content == w.content || invalidates
  }

  function Next(w: World, step: Step, tag: Tagger): World {
    if !Enabled(w, step) then w
    else
      match step
      case Tick(elapsed) => w.(now := w.now + elapsed)
      case Read => w.(store := AfterRead(w.store, w.content, tag, w.now))
      case Mutate(content, invalidates) => w.(content := content, store := if invalidates then map[] else w.store)
  }

  function Run(w: World, run: seq<Step>, tag: Tagger): World {
    if run == [] then w else Next(Run(w, run[..|run| - 1], tag), run[|run| - 1], tag)
  }

  /** What a read would be answered with now. */
  function Serves(w: World, tag: Tagger): Held
    requires Coherent(w, tag)
  {
    AfterRead(w.store, w.content, tag, w.now)["catalog"].value
  }

  /** Whatever the cache holds was made from the current content, and the page carries the stable timestamp. */
  predicate Coherent(w: World, tag: Tagger) {
    && ("stable" in w.store ==> w.store["stable"].value.Stable? && w.store["stable"].value.etag == tag(w.content))
    && ("catalog" in w.store ==>
          && "stable" in w.store && w.store["stable"].value.Stable?
          && w.store["catalog"].value == Page(tag(w.content), Body(w.content, w.store["stable"].value.generatedAt)))
  }

  lemma StepKeepsCoherent(w: World, step: Step, tag: Tagger)
    requires Coherent(w, tag)
    ensures Coherent(Next(w, step, tag), tag)
  {
  }

  lemma {:induction false} RunKeepsCoherent(w: World, run: seq<Step>, tag: Tagger)
    requires Coherent(w, tag)
    ensures Coherent(Run(w, run, tag), tag)
  {
    if run != [] {
      RunKeepsCoherent(w, run[..|run| - 1], tag);
      StepKeepsCoherent(Run(w, run[..|run| - 1], tag), run[|run| - 1], tag);
    }
  }

  /**
   From an empty cache, in every run of reads, mutations and waiting, the answer
   to a read is the serialization of the current catalog up to its timestamp,
   under the current catalog's tag.
   */
  lemma ServedContentIsCurrent(w: World, run: seq<Step>, tag: Tagger)
    requires w.store == map[]
    ensures
      var w' := Run(w, run, tag);
      && Coherent(w', tag)
      && Serves(w', tag).Page? && Serves(w', tag).etag == tag(w'.content) && Serves(w', tag).body.content == w'.content
  {
    RunKeepsCoherent(w, run, tag);
  }

  /**
   And the client's tag decides the form of the answer: 304 if and only if it is the
   tag of the current content, else the whole current content under that tag.
   */
  lemma NotModifiedExactly(w: World, run: seq<Step>, tag: Tagger, ifNoneMatch: Option<string>)
    requires w.store == map[]
    ensures
      var w' := Run(w, run, tag);
      && Coherent(w', tag) && Serves(w', tag).Page?
      && var r := Answer(Serves(w', tag).etag, Serves(w', tag).body, ifNoneMatch);
         && (r.NotModified? <==> ifNoneMatch.Some? && ifNoneMatch.value == tag(w'.content))
         && r.etag == tag(w'.content)
         && (r.Full? ==> r.body.content == w'.content)
  {
    ServedContentIsCurrent(w, run, tag);
  }

  /** A page is held for 30 seconds: a read within them leaves the cache as it is, one after them rebuilds the page. */
  lemma PageIsHeldFor30Seconds(w: World, tag: Tagger, later: Time)
    requires Lookup(w.store, "catalog", w.now).None? && w.now <= later
    ensures
      var first := Next(w, Read, tag);
      && "catalog" in first.store
      && (later < w.now + 30.0 ==> AfterRead(first.store, w.content, tag, later) == first.store)
      && (later >= w.now + 30.0 ==>
            var again := AfterRead(first.store, w.content, tag, later);
            "catalog" in again && again["catalog"].expires == later + 30.0)
  {
  }

  // ----------------------------------------------------- a stable timestamp

  ghost predicate Undisturbed(run: seq<Step>) {
    forall i :: 0 <= i < |run| && run[i].Mutate? ==> !run[i].invalidates
  }

  /** The timestamp fixed by an earlier read is still the one in force. */
  ghost predicate Fixed(w: World, content: Content, stable: Entry<Held>) {
    w.content == content && "stable" in w.store && w.store["stable"] == stable
  }

  lemma StepKeepsFixed(w: World, step: Step, tag: Tagger, content: Content, stable: Entry<Held>)
    requires Coherent(w, tag) && Fixed(w, content, stable) && w.now < stable.expires
    requires step.Mutate? ==> !step.invalidates
    ensures Fixed(Next(w, step, tag), content, stable)
  {
  }

  lemma {:induction false} RunKeepsFixed(w: World, run: seq<Step>, tag: Tagger, stable: Entry<Held>)
    requires Coherent(w, tag) && Fixed(w, w.content, stable) && Undisturbed(run)
    requires Run(w, run, tag).now < stable.expires
    ensures Fixed(Run(w, run, tag), w.content, stable)
  {
    if run != [] {
      var init, step := run[..|run| - 1], run[|run| - 1];
      assert Run(w, init, tag).now <= Run(w, run, tag).now;
      RunKeepsFixed(w, init, tag, stable);
      RunKeepsCoherent(w, init, tag);
      StepKeepsFixed(Run(w, init, tag), step, tag, w.content, stable);
    }
  }

  /**
   Between invalidations, and within 24 hours of the read that fixed the
   timestamp, every rebuild gives the very same body.
   */
  lemma RebuildsAreIdentical(w: World, run: seq<Step>, tag: Tagger)
    requires Coherent(w, tag) && Undisturbed(run)
    ensures
      var first := Next(w, Read, tag);
      var later := Run(first, run, tag);
      && "stable" in first.store && Coherent(first, tag) && Coherent(later, tag)
      && (later.now < first.store["stable"].expires ==> Serves(later, tag) == Serves(first, tag))
  {
    var first := Next(w, Read, tag);
    StepKeepsCoherent(w, Read, tag);
    RunKeepsCoherent(first, run, tag);
    if Run(first, run, tag).now < first.store["stable"].expires {
      RunKeepsFixed(first, run, tag, first.store["stable"]);
    }
  }

  /** The first read after an invalidation fixes the timestamp for 24 hours. */
  lemma ReadAfterInvalidationFixes(w: World, tag: Tagger)
    requires w.store == map[]
    ensures
      var first := Next(w, Read, tag);
      "stable" in first.store && first.store["stable"] == Entry(Stable(tag(w.content), w.now), w.now + 86400.0)
  {
    assert KeepsStable(w.store, w.content, tag, w.now) == false;
  }
}
