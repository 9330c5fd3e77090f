/**
 Every run of the catalog service (app/service.py, app/api_catalog.py): the
 mutations of the catalog tables, scrape merges among them, reads of the cached
 response, and waiting, in any order.

 Rows are addressed by what their UNIQUE constraints identify them by. A write
 that a constraint refuses raises before it changes or invalidates anything.
 */
module CatalogRuns {
  import opened Common
  import opened TtlCache
  import Merge = CatalogMerge
  import Serve = CatalogServe
  import Cached = CatalogResponse

  type Info = Serve.Info

  /** The fields an update names; an empty homepage or license clears the field. */
  datatype Patch = Patch(displayName: Option<string>, category: Option<string>, description: Option<string>,
                         homepage: Option<string>, license: Option<string>)

  datatype AppRow = AppRow(info: Info, rows: Merge.App)

  type Db = map<string, AppRow>

  datatype Mutation =
    | CreateApp(id: string, info: Info)
    | UpdateApp(id: string, patch: Patch)
    | DeleteApp(id: string)
    | AddRelease(id: string, version: string, release: Merge.Release)
    | DeleteRelease(id: string, version: string)
    | AddDownload(id: string, key: Merge.Key, url: Merge.Url, source: Merge.Source, headers: Merge.Headers)
    | DeleteDownload(id: string, key: Merge.Key)
    | ApplyGenerated(id: string, gens: seq<Merge.GenRelease>, replace: bool, heal: bool, alive: Merge.Url -> bool)

  function Given(given: Option<string>, current: string): string {
    if given.Some? then given.value else current
  }

  function Cleared(given: Option<string>, current: Option<string>): Option<string> {
    if given.None? then current else if given.value == "" then None else given
  }

  function Patched(i: Info, p: Patch): Info {
    Serve.Info(Given(p.displayName, i.displayName), Given(p.category, i.category),
               Given(p.description, i.description), Cleared(p.homepage, i.homepage), Cleared(p.license, i.license))
  }

  /** A new release row; a branch that is not named is derived from the version. */
  function ReleaseRow(version: string, r: Merge.Release): Merge.Release {
    if r.majorMinor == "" then r.(majorMinor := Merge.MajorMinor(version)) else r
  }

  /** Deleting a release takes its downloads with it. */
  function WithoutRelease(a: Merge.App, version: string): Merge.App {
    Merge.App(a.releases - {version}, map k | k in a.downloads && k.version != version :: a.downloads[k])
  }

  /** A finished merge, and whether it must invalidate the cache. */
  function MergedRows(a: Merge.App, gens: seq<Merge.GenRelease>, m: Merge.Mode): (Merge.App, bool) {
    var q := Merge.VisitReleases(Merge.Start(a), gens, m);
    (Merge.Commit(q), q.inserted > 0 || q.written > 0)
  }

  /** The database after a mutation, and whether the mutation invalidates the cache. */
  function Mutated(db: Db, op: Mutation): (Db, bool) {
    if op.CreateApp? then
      if op.id == "" || op.id in db then (db, false)
      else
        var info := if op.info.displayName == "" then op.info.(displayName := op.id) else op.info;
        (db[op.id := AppRow(info, Merge.NO_ROWS)], true)
    else if op.id !in db then (db, false)
    else
      var row := db[op.id];
      match op
      case UpdateApp(id, patch) => (db[id := row.(info := Patched(row.info, patch))], true)
      case DeleteApp(id) => (db - {id}, true)
      case AddRelease(id, v, r) =>
        if v in row.rows.releases then (db, false)
        else (db[id := row.(rows := row.rows.(releases := row.rows.releases[v := ReleaseRow(v, r)]))], true)
      case DeleteRelease(id, v) =>
        if v !in row.rows.releases then (db, false) else (db[id := row.(rows := WithoutRelease(row.rows, v))], true)
      case AddDownload(id, k, url, source, headers) =>
        if k.version !in row.rows.releases || k in row.rows.downloads then (db, false)
        else
          var d := Merge.Download(url, source, headers, None, None);
          (db[id := row.(rows := row.rows.(downloads := row.rows.downloads[k := d]))], true)
      case DeleteDownload(id, k) =>
        if k !in row.rows.downloads then (db, false)
        else (db[id := row.(rows := row.rows.(downloads := row.rows.downloads - {k}))], true)
      case ApplyGenerated(id, gens, replace, heal, alive) =>
        var r := MergedRows(if replace then Merge.NO_ROWS else row.rows, gens, Merge.ModeFor(id, heal, alive));
        (db[id := row.(rows := r.0)], r.1 || replace)
  }

  /** The foreign keys of one app's tables hold. */
  ghost predicate AppOk(db: Db, id: string) {
    id in db ==> Merge.ForeignKeys(db[id].rows)
  }

  lemma MergeIsAPass(a: Merge.App, gens: seq<Merge.GenRelease>, m: Merge.Mode)
    requires Merge.ForeignKeys(a)
    ensures Merge.ForeignKeys(MergedRows(a, gens, m).0)
    ensures !MergedRows(a, gens, m).1 ==> MergedRows(a, gens, m).0 == a
    ensures MergedRows(a, gens, m) == (Merge.Merged(a, gens, m), !Merge.NothingToDo(a, gens, m))
  {
    Merge.PassEnds(a, gens, m);
    Merge.PassKeepsForeignKeys(a, gens, m);
  }

  lemma MutationKeepsForeignKeys(db: Db, op: Mutation, id: string)
    requires AppOk(db, id)
    ensures AppOk(Mutated(db, op).0, id)
  {
    if op.ApplyGenerated? && op.id == id && id in db {
      var before := if op.replace then Merge.NO_ROWS else db[id].rows;
      MergeIsAPass(before, op.gens, Merge.ModeFor(id, op.heal, op.alive));
    }
  }

  /** Every mutation that changes a row invalidates the cache. */
  lemma ChangesInvalidate(db: Db, op: Mutation)
    requires AppOk(db, op.id)
    ensures Mutated(db, op).0 != db ==> Mutated(db, op).1
  {
    if op.ApplyGenerated? && op.id in db && !op.replace {
      var row := db[op.id];
      MergeIsAPass(row.rows, op.gens, Merge.ModeFor(op.id, op.heal, op.alive));
      assert row.(rows := row.rows) == row && db[op.id := row] == db;
    }
  }

  // ------------------------------------------------ what each mutation leaves

  /** No mutation touches another app, and only create and delete change which apps there are. */
  lemma OtherAppsStay(db: Db, op: Mutation, id: string)
    requires id != op.id
    ensures
      var db' := Mutated(db, op).0;
      (id in db' <==> id in db) && (id in db ==> db'[id] == db[id])
  {
  }

  /** Creating: refused for an empty or taken id; else an app without releases, shown by its id if it has no name. */
  lemma CreateIsExact(db: Db, id: string, info: Info)
    ensures
      var (db', invalidates) := Mutated(db, CreateApp(id, info));
      && (invalidates <==> id != "" && id !in db)
      && (!invalidates ==> db' == db)
      && (invalidates ==>
            && id in db' && db'[id].rows.releases == map[] && db'[id].rows.downloads == map[]
            && db'[id].info.displayName == (if info.displayName == "" then id else info.displayName)
            && db'[id].info.category == info.category && db'[id].info.description == info.description
            && db'[id].info.homepage == info.homepage && db'[id].info.license == info.license)
  {
  }

  /** Updating: a field that is not named stays; an empty homepage or license is cleared. */
  lemma UpdateIsExact(db: Db, id: string, p: Patch)
    requires id in db
    ensures
      var db' := Mutated(db, UpdateApp(id, p)).0;
      && id in db' && db'[id].rows == db[id].rows
      && db'[id].info.displayName == (if p.displayName.Some? then p.displayName.value else db[id].info.displayName)
      && db'[id].info.category == (if p.category.Some? then p.category.value else db[id].info.category)
      && db'[id].info.description == (if p.description.Some? then p.description.value else db[id].info.description)
      && (p.homepage.None? ==> db'[id].info.homepage == db[id].info.homepage)
      && (p.homepage.Some? ==> db'[id].info.homepage == if p.homepage.value == "" then None else p.homepage)
      && (p.license.None? ==> db'[id].info.license == db[id].info.license)
      && (p.license.Some? ==> db'[id].info.license == if p.license.value == "" then None else p.license)
  {
  }

  /** Deleting an app takes it away; deleting a release takes it and its own downloads, and nothing else. */
  lemma DeletesAreExact(db: Db, id: string, v: string)
    requires id in db
    ensures id !in Mutated(db, DeleteApp(id)).0
    ensures
      var db' := Mutated(db, DeleteRelease(id, v)).0;
      && id in db' && db'[id].info == db[id].info
      && (forall u :: u in db'[id].rows.releases <==> u in db[id].rows.releases && u != v)
      && (forall u :: u in db'[id].rows.releases ==> db'[id].rows.releases[u] == db[id].rows.releases[u])
      && (v in db[id].rows.releases ==>
            (forall k :: k in db'[id].rows.downloads <==> k in db[id].rows.downloads && k.version != v))
      && (forall k :: k in db'[id].rows.downloads ==> db'[id].rows.downloads[k] == db[id].rows.downloads[k])
  {
  }

  /** Adding a release: refused for a stored version; else one row more, its branch derived when none is named. */
  lemma AddReleaseIsExact(db: Db, id: string, v: string, r: Merge.Release)
    requires id in db
    ensures
      var (db', invalidates) := Mutated(db, AddRelease(id, v, r));
      && (invalidates <==> v !in db[id].rows.releases) && (!invalidates ==> db' == db)
      && (invalidates ==>
            && id in db' && db'[id].info == db[id].info && db'[id].rows.downloads == db[id].rows.downloads
            && db'[id].rows.releases.Keys == db[id].rows.releases.Keys + {v}
            && (forall u :: u in db[id].rows.releases ==> db'[id].rows.releases[u] == db[id].rows.releases[u])
            && db'[id].rows.releases[v].channel == r.channel && db'[id].rows.releases[v].releasedAt == r.releasedAt
            && (r.majorMinor != "" ==> db'[id].rows.releases[v].majorMinor == r.majorMinor)
            && (r.majorMinor == "" ==> db'[id].rows.releases[v].majorMinor == Merge.MajorMinor(v)))
  {
  }

  /** Adding a download: refused without its release or for a taken platform; else one row, without hash and size. */
  lemma AddDownloadIsExact(db: Db, id: string, k: Merge.Key, url: Merge.Url, source: Merge.Source,
                           headers: Merge.Headers)
    requires id in db
    ensures
      var (db', invalidates) := Mutated(db, AddDownload(id, k, url, source, headers));
      && (invalidates <==> k.version in db[id].rows.releases && k !in db[id].rows.downloads)
      && (!invalidates ==> db' == db)
      && (invalidates ==>
            && id in db' && db'[id].info == db[id].info && db'[id].rows.releases == db[id].rows.releases
            && db'[id].rows.downloads ==
               db[id].rows.downloads[k := Merge.Download(url, source, headers, None, None)])
  {
  }

  /** Deleting a download takes that row only. */
  lemma DeleteDownloadIsExact(db: Db, id: string, k: Merge.Key)
    requires id in db
    ensures
      var (db', invalidates) := Mutated(db, DeleteDownload(id, k));
      && (invalidates <==> k in db[id].rows.downloads)
      && id in db' && db'[id].info == db[id].info && db'[id].rows.releases == db[id].rows.releases
      && db'[id].rows.downloads == db[id].rows.downloads - {k}
  {
    if k !in db[id].rows.downloads {
      assert db[id].rows.downloads - {k} == db[id].rows.downloads;
    }
  }

  /** What a merge works on: the app's rows, or none after a replace. */
  function MergeBase(row: AppRow, replace: bool): Merge.App {
    if replace then Merge.App(map[], map[]) else row.rows
  }

  lemma MutatedByMerge(db: Db, id: string, gens: seq<Merge.GenRelease>, replace: bool, heal: bool,
                       alive: Merge.Url -> bool)
    requires id in db
    ensures
      var r := MergedRows(MergeBase(db[id], replace), gens, Merge.ModeFor(id, heal, alive));
      Mutated(db, ApplyGenerated(id, gens, replace, heal, alive)) == (db[id := db[id].(rows := r.0)], r.1 || replace)
  {
  }

  /** A merge is the pass over its base, leaves the app's fields alone, and invalidates if there is something to do. */
  lemma MergeIsExact(db: Db, id: string, gens: seq<Merge.GenRelease>, replace: bool, heal: bool,
                     alive: Merge.Url -> bool)
    requires id in db && Merge.ForeignKeys(db[id].rows)
    ensures
      var (db', invalidates) := Mutated(db, ApplyGenerated(id, gens, replace, heal, alive));
      var base, m := MergeBase(db[id], replace), Merge.ModeFor(id, heal, alive);
      && id in db' && db'[id].info == db[id].info && db'[id].rows == Merge.Merged(base, gens, m)
      && (invalidates <==> replace || !Merge.NothingToDo(base, gens, m))
  {
    MutatedByMerge(db, id, gens, replace, heal, alive);
    MergeIsAPass(MergeBase(db[id], replace), gens, Merge.ModeFor(id, heal, alive));
  }

  // ------------------------------------------------------------------- runs

  datatype World = World(now: Time, db: Db, store: map<string, Entry<Cached.Held>>)

  datatype Step = Tick(elapsed: Time) | Read | Do(mutation: Mutation)

  type Renderer = Db -> Cached.Content

  /** The world as the response cache sees it: only what the database renders to. */
  function View(w: World, render: Renderer): Cached.World {
    Cached.World(w.now, render(w.db), w.store)
  }

  function Next(w: World, step: Step, render: Renderer, tag: Cached.Tagger): World {
    match step
    case Tick(elapsed) => if elapsed >= 0.0 then w.(now := w.now + elapsed) else w
    case Read => w.(store := Cached.AfterRead(w.store, render(w.db), tag, w.now))
    case Do(op) =>
      var (db, invalidates) := Mutated(w.db, op);
      w.(db := db, store := if invalidates then map[] else w.store)
  }

  function Run(w: World, run: seq<Step>, render: Renderer, tag: Cached.Tagger): World {
    if run == [] then w else Next(Run(w, run[..|run| - 1], render, tag), run[|run| - 1], render, tag)
  }

  /** A step as the response cache sees it. */
  function Seen(w: World, step: Step, render: Renderer): Cached.Step {
    match step
    case Tick(elapsed) => Cached.Tick(elapsed)
    case Read => Cached.Read
    case Do(op) => Cached.Mutate(render(Mutated(w.db, op).0), Mutated(w.db, op).1)
  }

  function Trace(w: World, run: seq<Step>, render: Renderer, tag: Cached.Tagger): seq<Cached.Step> {
    if run == [] then []
    else
      var init := run[..|run| - 1];
      Trace(w, init, render, tag) + [Seen(Run(w, init, render, tag), run[|run| - 1], render)]
  }

  ghost predicate DbOk(db: Db) {
    forall id :: AppOk(db, id)
  }

  lemma StepIsSeen(w: World, step: Step, render: Renderer, tag: Cached.Tagger)
    requires DbOk(w.db)
    ensures DbOk(Next(w, step, render, tag).db)
    ensures View(Next(w, step, render, tag), render) == Cached.Next(View(w, render), Seen(w, step, render), tag)
  {
    if step.Do? {
      assert AppOk(w.db, step.mutation.id);
      ChangesInvalidate(w.db, step.mutation);
      forall id ensures AppOk(Mutated(w.db, step.mutation).0, id) {
        assert AppOk(w.db, id);
        MutationKeepsForeignKeys(w.db, step.mutation, id);
      }
    }
  }

  /** Every run of the service is a run of the response cache in which changes invalidate. */
  lemma {:induction false} RunIsSeen(w: World, run: seq<Step>, render: Renderer, tag: Cached.Tagger)
    requires DbOk(w.db)
    ensures DbOk(Run(w, run, render, tag).db)
    ensures View(Run(w, run, render, tag), render) == Cached.Run(View(w, render), Trace(w, run, render, tag), tag)
  {
    if run != [] {
      var init := run[..|run| - 1];
      RunIsSeen(w, init, render, tag);
      StepIsSeen(Run(w, init, render, tag), run[|run| - 1], render, tag);
      assert Trace(w, run, render, tag)[..|Trace(w, run, render, tag)| - 1] == Trace(w, init, render, tag);
    }
  }

  /**
   From an empty cache, in every run of reads, service mutations and expiries, a
   read is answered with the rendering of the current database, under its tag,
   apart from the timestamp.
   */
  lemma ServedCatalogIsTheDatabase(w: World, run: seq<Step>, render: Renderer, tag: Cached.Tagger)
    requires DbOk(w.db) && w.store == map[]
    ensures
      var w' := Run(w, run, render, tag);
      var v := View(w', render);
      && DbOk(w'.db) && Cached.Coherent(v, tag)
      && Cached.Serves(v, tag).Page? && Cached.Serves(v, tag).etag == tag(render(w'.db))
      && Cached.Serves(v, tag).body.content == render(w'.db)
  {
    RunIsSeen(w, run, render, tag);
    Cached.ServedContentIsCurrent(View(w, render), Trace(w, run, render, tag), tag);
  }

  // ------------------------------------------------------- the real rendering

  /** How the database lists the rows of an app. */
  type Lister = Merge.App -> seq<Serve.StoredRelease>

  /** The catalog document: every app with its served releases. */
  function Document(db: Db, list: Lister, isPrerelease: string -> bool): map<string, Serve.AppDoc> {
    map id | id in db :: Serve.Schema(id, db[id].info, list(db[id].rows), isPrerelease)
  }

  /** The document serialized. */
  function Rendering(list: Lister, isPrerelease: string -> bool,
                     serialize: map<string, Serve.AppDoc> -> Cached.Content): Renderer
  {
    db => serialize(Document(db, list, isPrerelease))
  }

  /** The version shows a download if and only if the tables hold it for that version and it may be served. */
  ghost predicate ListsDownloads(r: Serve.Served, a: Merge.App, mirrorOnly: bool) {
    && r.version in a.releases && r.row == a.releases[r.version]
    && forall d :: d in r.downloads <==>
         var k := Merge.Key(r.version, d.triple);
         k in a.downloads && a.downloads[k] == d.file && Serve.MayBeServed(d.file, mirrorOnly)
  }

  /**
   A served document of an app is right for its tables: its fields are the app's; the
   releases are in order, exactly those the tables offer, each with its columns and
   with exactly the downloads that may be served.
   */
  ghost predicate IsRightFor(doc: Serve.AppDoc, id: string, row: AppRow, list: Lister, isPrerelease: string -> bool) {
    var mirrorOnly := id == "apache" || id == "mysql";
    && Serve.ShowsInfo(doc, id, row.info)
    && Serve.IsDocument(list(row.rows), mirrorOnly, isPrerelease, doc.releases)
    && (forall v ::
          (exists r :: r in doc.releases && r.version == v) <==>
          Serve.IsOffered(row.rows, v, mirrorOnly, isPrerelease))
    && (forall r :: r in doc.releases ==> ListsDownloads(r, row.rows, mirrorOnly))
  }

  lemma DocumentIsRight(db: Db, list: Lister, isPrerelease: string -> bool, id: string)
    requires id in db && Serve.Lists(db[id].rows, list(db[id].rows))
    ensures IsRightFor(Document(db, list, isPrerelease)[id], id, db[id], list, isPrerelease)
  {
    var a, mirrorOnly := db[id].rows, id == "apache" || id == "mysql";
    var doc := Document(db, list, isPrerelease)[id];
    Serve.SchemaIsRight(id, db[id].info, list(a), isPrerelease);
    forall v
      ensures (exists r :: r in doc.releases && r.version == v) <==> Serve.IsOffered(a, v, mirrorOnly, isPrerelease)
    {
      Serve.VersionIsServedExactly(a, list(a), mirrorOnly, isPrerelease, doc.releases, v);
    }
    forall r | r in doc.releases ensures ListsDownloads(r, a, mirrorOnly) {
      DownloadsAreRight(a, list(a), mirrorOnly, isPrerelease, doc.releases, r);
    }
  }

  lemma DownloadsAreRight(a: Merge.App, rs: seq<Serve.StoredRelease>, mirrorOnly: bool, isPrerelease: string -> bool,
                          doc: seq<Serve.Served>, r: Serve.Served)
    requires Serve.Lists(a, rs) && Serve.IsDocument(rs, mirrorOnly, isPrerelease, doc) && r in doc
    ensures ListsDownloads(r, a, mirrorOnly)
  {
    forall d: Serve.StoredDownload
      ensures
        var k := Merge.Key(r.version, d.triple);
        d in r.downloads <==> k in a.downloads && a.downloads[k] == d.file && Serve.MayBeServed(d.file, mirrorOnly)
    {
      Serve.DownloadIsServedExactly(a, rs, mirrorOnly, isPrerelease, doc, r, d);
    }
    Serve.ServedReleaseIsStored(a, rs, mirrorOnly, isPrerelease, doc, r);
  }

  /**
   From the tables to the client: in every run of reads, mutations, merges and
   expiries, what is served is the serialized document of the current tables, and
   in it every app shows exactly the versions its tables offer, newest first.
   */
  lemma ServedCatalogIsRight(w: World, run: seq<Step>, list: Lister, isPrerelease: string -> bool,
                             serialize: map<string, Serve.AppDoc> -> Cached.Content, tag: Cached.Tagger)
    requires DbOk(w.db) && w.store == map[] && forall a :: Serve.Lists(a, list(a))
    ensures
      var render := Rendering(list, isPrerelease, serialize);
      var w' := Run(w, run, render, tag);
      var doc := Document(w'.db, list, isPrerelease);
      && Cached.Coherent(View(w', render), tag) && Cached.Serves(View(w', render), tag).Page?
      && Cached.Serves(View(w', render), tag).body.content == serialize(doc)
      && doc.Keys == w'.db.Keys
      && (forall id :: id in w'.db ==> IsRightFor(doc[id], id, w'.db[id], list, isPrerelease))
  {
    var render := Rendering(list, isPrerelease, serialize);
    var db := Run(w, run, render, tag).db;
    ServedCatalogIsTheDatabase(w, run, render, tag);
    forall id | id in db
      ensures IsRightFor(Document(db, list, isPrerelease)[id], id, db[id], list, isPrerelease)
    {
      DocumentIsRight(db, list, isPrerelease, id);
    }
  }
}
