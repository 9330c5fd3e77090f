/**
 Merging scraped releases into the stored catalog of one app, with URL healing
 (`apply_generated_releases` in app/service.py).

 The specification is declarative and looks at one platform key at a time: what
 happens to a row is a function of the row and of the offers scraped for its
 key, in scrape order. The method below is the nested loop of the service, with
 its lazily filled buckets of seen triples and its queue of rows that the loaded
 collection does not show, and it is proved to compute exactly that.
 */
module CatalogMerge {
  import opened Common

  const OWN_BUILD_SOURCE := "nks-hub/webdev-console-binaries"
  const MIRROR_ONLY_APPS: set<string> := {"apache", "mysql"}
  const MIRROR_URL_PREFIX := "https://github.com/" + OWN_BUILD_SOURCE + "/releases/download/"

  /** A source label, told apart as the healing rules tell them apart. */
  datatype Source = OwnBuild | PhpNet | OtherSource(name: string)

  const SUPERSEDED_BY_OWN_BUILDS: set<Source> := {PhpNet}

  /** A URL split at the mirror prefix, when it starts with it. */
  datatype Url = Mirrored(asset: string) | Elsewhere(address: string)

  function SourceOf(text: string): Source {
    if text == OWN_BUILD_SOURCE then OwnBuild else if text == "php.net" then PhpNet else OtherSource(text)
  }

  function SourceText(s: Source): string {
    match s
    case OwnBuild => OWN_BUILD_SOURCE
    case PhpNet => "php.net"
    case OtherSource(name) => name
  }

  function UrlOf(url: string): Url {
    if MIRROR_URL_PREFIX <= url then Mirrored(url[|MIRROR_URL_PREFIX|..]) else Elsewhere(url)
  }

  function UrlText(u: Url): string {
    match u
    case Mirrored(asset) => MIRROR_URL_PREFIX + asset
    case Elsewhere(address) => address
  }

  /** The two classifications lose nothing, so rows over them are rows over the stored text. */
  lemma TextIsPreserved(url: string, source: string)
    ensures UrlText(UrlOf(url)) == url && (UrlOf(url).Mirrored? <==> MIRROR_URL_PREFIX <= url)
    ensures SourceText(SourceOf(source)) == source
    ensures SourceOf(source).OwnBuild? <==> source == "nks-hub/webdev-console-binaries"
    ensures SourceOf(source).PhpNet? <==> source == "php.net"
  {
    if MIRROR_URL_PREFIX <= url {
      assert url == url[..|MIRROR_URL_PREFIX|] + url[|MIRROR_URL_PREFIX|..];
    }
  }

  datatype Triple = Triple(os: string, arch: string, archiveType: string)

  /** What the UNIQUE constraints identify a download row by, within one app. */
  datatype Key = Key(version: string, triple: Triple)

  type Headers = Option<map<string, string>>

  datatype GenDownload =
    GenDownload(url: Url, triple: Triple, source: Source, headers: Headers, size: Option<int>)
  {
    function Origin(): (Url, Source, Headers) {
      (url, source, headers)
    }
  }

  datatype GenRelease =
    GenRelease(version: string, majorMinor: string, channel: string,
               releasedAt: Option<string>, downloads: seq<GenDownload>)

  datatype Release = Release(majorMinor: string, channel: string, releasedAt: Option<string>)

  datatype Download =
    Download(url: Url, source: Source, headers: Headers, sha256: Option<string>, size: Option<int>)
  {
    /** Everything about where the file comes from; sizes are kept apart. */
    function Origin(): (Url, Source, Headers) {
      (url, source, headers)
    }
  }

  datatype App = App(releases: map<string, Release>, downloads: map<Key, Download>)

  /** Every download row names a stored release (the foreign key). */
  ghost predicate ForeignKeys(a: App) {
    forall k :: k in a.downloads ==> k.version in a.releases
  }

  /**
   The settings of one pass: the HEAD probe gives the same answer throughout, and
   `branch` derives the branch of a version whose scrape does not name one.
   */
  datatype Mode = Mode(heal: bool, mirrorOnly: bool, alive: Url -> bool, branch: string -> string)

  // ---------------------------------------------------------------- one row

  predicate Refreshes(d: Download, g: GenDownload) {
    d.url == g.url && g.size.Some? && d.size != g.size
  }

  predicate Replaceable(d: Download, m: Mode) {
    d.source in SUPERSEDED_BY_OWN_BUILDS || (m.mirrorOnly && !d.url.Mirrored?)
  }

  predicate OwnBuildWins(d: Download, g: GenDownload, m: Mode) {
    g.source == OwnBuild && Replaceable(d, m) && m.alive(g.url)
  }

  predicate DeadUrlHeals(d: Download, g: GenDownload, m: Mode) {
    d.url != g.url && !m.alive(d.url) && m.alive(g.url)
  }

  predicate Heals(d: Download, g: GenDownload, m: Mode) {
    m.heal && (OwnBuildWins(d, g, m) || DeadUrlHeals(d, g, m))
  }

  /** One stored row meets one scraped offer for its key. */
  function Revised(d: Download, g: GenDownload, m: Mode): Download {
    if Heals(d, g, m) then
      Download(g.url, g.source, g.headers, d.sha256, g.size)
    else if Refreshes(d, g) then
      d.(size := g.size)
    else
      d
  }

  function Revisions(d: Download, offers: seq<GenDownload>, m: Mode): Download {
    if offers == [] then d
    else Revised(Revisions(d, offers[..|offers| - 1], m), offers[|offers| - 1], m)
  }

  function Fresh(g: GenDownload): Download {
    Download(g.url, g.source, g.headers, None, g.size)
  }

  // ------------------------------------------------------- one pass, by key

  /** One scraped download with the key it is offered for. */
  datatype Entry = Entry(key: Key, offer: GenDownload)

  function EntriesOf(version: string, gds: seq<GenDownload>): seq<Entry> {
    seq(|gds|, i requires 0 <= i < |gds| => Entry(Key(version, gds[i].triple), gds[i]))
  }

  /** A scrape as one list of entries, in the order the nested loop visits them. */
  function Flat(gens: seq<GenRelease>): seq<Entry> {
    if gens == [] then []
    else
      var last := gens[|gens| - 1];
      Flat(gens[..|gens| - 1]) + EntriesOf(last.version, last.downloads)
  }

  function OffersIn(es: seq<Entry>, k: Key): seq<GenDownload> {
    if es == [] then []
    else
      var last := es[|es| - 1];
      OffersIn(es[..|es| - 1], k) + (if last.key == k then [last.offer] else [])
  }

  /** The offers a scrape makes for a key, in scrape order. */
  function Scraped(gens: seq<GenRelease>, k: Key): seq<GenDownload> {
    OffersIn(Flat(gens), k)
  }

  function Versions(gens: seq<GenRelease>): set<string> {
    if gens == [] then {} else Versions(gens[..|gens| - 1]) + {gens[|gens| - 1].version}
  }

  function Keys(gens: seq<GenRelease>): set<Key> {
    set e | e in Flat(gens) :: e.key
  }

  /** The first scraped entry for a version supplies the release row. */
  function FirstOf(gens: seq<GenRelease>, v: string): GenRelease
    requires v in Versions(gens)
  {
    var init := gens[..|gens| - 1];
    if v in Versions(init) then FirstOf(init, v) else gens[|gens| - 1]
  }

  /** The text before the `dots`-th dot, or all of it when there are fewer. */
  function UpToDot(s: string, dots: nat): string {
    if s == "" || (s[0] == '.' && dots <= 1) then ""
    else [s[0]] + UpToDot(s[1..], if s[0] == '.' then dots - 1 else dots)
  }

  function MajorMinor(version: string): string {
    UpToDot(version, 2)
  }

  function Dots(s: string): nat {
    if s == "" then 0 else (if s[0] == '.' then 1 else 0) + Dots(s[1..])
  }

  lemma {:induction false} UpToDotCuts(s: string, dots: nat)
    requires dots > 0
    ensures
      var r := UpToDot(s, dots);
      && r <= s && Dots(r) < dots
      && (r == s || (s[|r|] == '.' && Dots(r) == dots - 1))
  {
    if s != "" && (s[0] != '.' || dots > 1) {
      var rest := UpToDot(s[1..], if s[0] == '.' then dots - 1 else dots);
      UpToDotCuts(s[1..], if s[0] == '.' then dots - 1 else dots);
      assert s == [s[0]] + s[1..] && ([s[0]] + rest)[1..] == rest;
    }
  }

  /** The branch of a version is the version up to its second dot, or all of it: its first two parts, joined. */
  lemma MajorMinorIsTwoParts(version: string)
    ensures
      var r := MajorMinor(version);
      && r <= version && Dots(r) <= 1
      && (r == version || (version[|r|] == '.' && Dots(r) == 1))
  {
    UpToDotCuts(version, 2);
  }

  function NewRelease(g: GenRelease, m: Mode): Release {
    Release(if g.majorMinor == "" then m.branch(g.version) else g.majorMinor, g.channel, g.releasedAt)
  }

  function MergedReleases(a: App, gens: seq<GenRelease>, m: Mode): map<string, Release> {
    if gens == [] then a.releases
    else
      var sofar, last := MergedReleases(a, gens[..|gens| - 1], m), gens[|gens| - 1];
      if last.version in sofar then sofar else sofar[last.version := NewRelease(last, m)]
  }

  lemma {:induction false} MergedReleasesKeys(a: App, gens: seq<GenRelease>, m: Mode)
    ensures MergedReleases(a, gens, m).Keys == a.releases.Keys + Versions(gens)
  {
    if gens != [] {
      MergedReleasesKeys(a, gens[..|gens| - 1], m);
    }
  }

  /** Stored releases stay as they are, and the first scraped entry for a new version supplies its row. */
  lemma {:induction false} MergedReleasesKeepTheFirst(a: App, gens: seq<GenRelease>, m: Mode)
    ensures
      var r := MergedReleases(a, gens, m);
      && r.Keys == a.releases.Keys + Versions(gens)
      && (forall v :: v in a.releases ==> r[v] == a.releases[v])
      && (forall v :: v in Versions(gens) - a.releases.Keys ==> r[v] == NewRelease(FirstOf(gens, v), m))
  {
    if gens != [] {
      MergedReleasesKeepTheFirst(a, gens[..|gens| - 1], m);
    }
  }

  /** Column by column: the first scraped entry of a version that was absent supplies branch, channel and date. */
  lemma {:induction false} NewReleaseCarriesTheScrape(a: App, gens: seq<GenRelease>, m: Mode, i: nat)
    requires i < |gens| && gens[i].version !in a.releases
    requires forall j :: 0 <= j < i ==> gens[j].version != gens[i].version
    ensures
      var r := MergedReleases(a, gens, m);
      var g := gens[i];
      && g.version in r && r[g.version].channel == g.channel && r[g.version].releasedAt == g.releasedAt
      && r[g.version].majorMinor == if g.majorMinor == "" then m.branch(g.version) else g.majorMinor
  {
    var init := gens[..|gens| - 1];
    if i < |init| {
      NewReleaseCarriesTheScrape(a, init, m, i);
    } else {
      MergedReleasesKeys(a, init, m);
      NotAmongVersions(init, gens[i].version);
    }
  }

  lemma {:induction false} NotAmongVersions(gens: seq<GenRelease>, v: string)
    requires forall j :: 0 <= j < |gens| ==> gens[j].version != v
    ensures v !in Versions(gens)
  {
    if gens != [] {
      NotAmongVersions(gens[..|gens| - 1], v);
    }
  }

  function Outcome(a: App, gens: seq<GenRelease>, k: Key, m: Mode): Download
    requires k in a.downloads || Scraped(gens, k) != []
  {
    if k in a.downloads then Revisions(a.downloads[k], Scraped(gens, k), m) else Fresh(Scraped(gens, k)[0])
  }

  lemma {:induction false} OffersAreKeyed(es: seq<Entry>, k: Key)
    ensures OffersIn(es, k) != [] <==> exists e :: e in es && e.key == k
  {
    if es != [] {
      var init, last := es[..|es| - 1], es[|es| - 1];
      OffersAreKeyed(init, k);
      assert forall e :: e in es <==> e in init || e == last;
    }
  }

  lemma KeysAreScraped(gens: seq<GenRelease>, k: Key)
    ensures k in Keys(gens) <==> Scraped(gens, k) != []
  {
    OffersAreKeyed(Flat(gens), k);
  }

  /** The catalog of an app after one pass over a scrape. */
  function Merged(a: App, gens: seq<GenRelease>, m: Mode): App {
    App(MergedReleases(a, gens, m),
        map k | k in a.downloads.Keys + Keys(gens) :: (KeysAreScraped(gens, k); Outcome(a, gens, k, m)))
  }

  // ------------------------------------------- what a pass does to one row

  /**
   What a prefix of the offers has established about a row: a live offer leaves
   it live, and a live own build (mirrored, where only mirrors count) leaves it
   beyond both rules.
   */
  ghost predicate Settled(d: Download, offers: seq<GenDownload>, m: Mode) {
    && (forall g :: g in offers && m.alive(g.url) ==> m.alive(d.url))
    && (forall g :: g in offers && m.alive(g.url) && g.source == OwnBuild && (m.mirrorOnly ==> g.url.Mirrored?)
          ==> m.alive(d.url) && !Replaceable(d, m))
  }

  lemma {:induction false} RevisionsSettle(d: Download, offers: seq<GenDownload>, m: Mode)
    requires m.heal
    ensures Settled(Revisions(d, offers, m), offers, m)
  {
    if offers != [] {
      RevisionsSettle(d, offers[..|offers| - 1], m);
      assert offers == offers[..|offers| - 1] + [offers[|offers| - 1]];
    }
  }

  /** Revisions of two rows with one origin keep one origin. */
  lemma {:induction false} RevisionsFollowOrigin(d: Download, e: Download, offers: seq<GenDownload>, m: Mode)
    requires d.Origin() == e.Origin()
    ensures Revisions(d, offers, m).Origin() == Revisions(e, offers, m).Origin()
  {
    if offers != [] {
      RevisionsFollowOrigin(d, e, offers[..|offers| - 1], m);
    }
  }

  /** A live row moves only to live own builds, and stays put when it is beyond their rule or none is live. */
  lemma {:induction false} LiveRowMovesOnlyToOwnBuilds(d: Download, offers: seq<GenDownload>, m: Mode)
    requires m.alive(d.url)
    ensures
      var r := Revisions(d, offers, m);
      && m.alive(r.url)
      && (r.Origin() == d.Origin() ||
          (exists g :: g in offers && m.alive(g.url) && g.source == OwnBuild && r.Origin() == g.Origin()))
    ensures !Replaceable(d, m) ==> Revisions(d, offers, m).Origin() == d.Origin()
  {
    if offers != [] {
      var init, last := offers[..|offers| - 1], offers[|offers| - 1];
      LiveRowMovesOnlyToOwnBuilds(d, init, m);
      assert last in offers;
      assert forall g :: g in init ==> g in offers;
    }
  }

  /** Offers that are all dead change no origin. */
  lemma {:induction false} DeadOffersChangeNothing(d: Download, offers: seq<GenDownload>, m: Mode)
    requires forall g :: g in offers ==> !m.alive(g.url)
    ensures Revisions(d, offers, m).Origin() == d.Origin()
  {
    if offers != [] {
      var init := offers[..|offers| - 1];
      assert forall g :: g in init ==> g in offers;
      assert offers[|offers| - 1] in offers;
      DeadOffersChangeNothing(d, init, m);
    }
  }

  /**
   The two rules compete, yet a second visit to the same offers changes no URL,
   source or header: the origin a pass leaves a row with is a fixpoint. No
   assumption is made about where own builds are hosted.
   */
  lemma {:induction false} RevisionsAreIdempotent(d: Download, offers: seq<GenDownload>, m: Mode)
    ensures Revisions(Revisions(d, offers, m), offers, m).Origin() == Revisions(d, offers, m).Origin()
  {
    if offers != [] {
      var init, last := offers[..|offers| - 1], offers[|offers| - 1];
      var before := Revisions(d, init, m);
      var after := Revised(before, last, m);
      RevisionsAreIdempotent(d, init, m);
      if after.Origin() == before.Origin() {
        RevisionsFollowOrigin(before, after, init, m);
      } else {
        RevisionsSettle(d, init, m);
        if OwnBuildWins(before, last, m) {
          LiveRowMovesOnlyToOwnBuilds(after, init, m);
        } else {
          assert forall g :: g in init ==> !m.alive(g.url);
          DeadOffersChangeNothing(after, init, m);
        }
      }
    }
  }

  /** A live URL outside the own-build rule survives; any new URL is a live one offered for the key. */
  lemma {:induction false} RevisionsNeverBreakLiveUrls(d: Download, offers: seq<GenDownload>, m: Mode)
    ensures m.alive(d.url) && !Replaceable(d, m) ==> Revisions(d, offers, m).Origin() == d.Origin()
    ensures
      var r := Revisions(d, offers, m);
      r.Origin() == d.Origin() ||
      (m.heal && exists g :: g in offers && m.alive(g.url) && r.Origin() == g.Origin())
    ensures Revisions(d, offers, m).sha256 == d.sha256
  {
    if offers != [] {
      var init, last := offers[..|offers| - 1], offers[|offers| - 1];
      RevisionsNeverBreakLiveUrls(d, init, m);
      assert last in offers;
      assert forall g :: g in init ==> g in offers;
    }
  }

  // ----------------------------------------------------------- whole passes

  /** A live own build on offer leaves no superseded source. */
  lemma {:induction false} OwnBuildLeavesNoSuperseded(d: Download, offers: seq<GenDownload>, m: Mode)
    requires m.heal && exists g :: g in offers && LiveOwnBuild(g, m)
    ensures Revisions(d, offers, m).source !in SUPERSEDED_BY_OWN_BUILDS
  {
    var init, last := offers[..|offers| - 1], offers[|offers| - 1];
    assert offers == init + [last];
    if !LiveOwnBuild(last, m) {
      RevisionsSettle(d, init, m);
      OwnBuildLeavesNoSuperseded(d, init, m);
    }
  }

  /**
   Exactly when the healing rules would write a row again that a pass has just
   left: healing is on, the app is mirror-only, the row is not on the mirror, and
   the scrape offers a live own build. Its host does not matter otherwise.
   */
  lemma RowIsHealedAgainExactly(d: Download, offers: seq<GenDownload>, m: Mode)
    ensures
      var r := Revisions(d, offers, m);
      (exists g :: g in offers && Heals(r, g, m)) <==>
      m.heal && m.mirrorOnly && !r.url.Mirrored? && exists g :: g in offers && LiveOwnBuild(g, m)
  {
    var r := Revisions(d, offers, m);
    if m.heal {
      RevisionsSettle(d, offers, m);
      if g :| g in offers && LiveOwnBuild(g, m) {
        OwnBuildLeavesNoSuperseded(d, offers, m);
        assert m.mirrorOnly && !r.url.Mirrored? ==> Heals(r, g, m);
      }
    }
  }

  /** An own build outside the mirror is adopted again by every pass, though it changes nothing. */
  lemma UnmirroredOwnBuildIsRewritten(url: Url, alive: Url -> bool)
    requires alive(url) && !url.Mirrored?
    ensures
      var m := Mode(true, true, alive, v => v);
      var g := GenDownload(url, Triple("windows", "x64", "zip"), OwnBuild, None, None);
      var d := Revisions(Fresh(g), [g], m);
      Heals(d, g, m) && Revised(d, g, m) == d
  {
    var g := GenDownload(url, Triple("windows", "x64", "zip"), OwnBuild, None, None);
    var m := Mode(true, true, alive, v => v);
    assert Revisions(Fresh(g), [], m) == Fresh(g);
    assert [g][..0] == [];
  }

  /** Same releases, same rows, same URL, source and headers in every row. */
  ghost predicate SameCatalog(a: App, b: App) {
    && a.releases == b.releases
    && a.downloads.Keys == b.downloads.Keys
    && forall k :: k in a.downloads ==> a.downloads[k].Origin() == b.downloads[k].Origin()
  }

  lemma {:induction false} KnownVersionsAddNoRelease(a: App, gens: seq<GenRelease>, m: Mode)
    requires Versions(gens) <= a.releases.Keys
    ensures MergedReleases(a, gens, m) == a.releases
  {
    if gens != [] {
      KnownVersionsAddNoRelease(a, gens[..|gens| - 1], m);
    }
  }

  /** A row that was stored before a pass is final after it: the next pass changes no origin. */
  lemma StoredRowsSettleInOnePass(a: App, gens: seq<GenRelease>, m: Mode, k: Key)
    requires k in a.downloads
    ensures
      var once := Merged(a, gens, m);
      var twice := Merged(once, gens, m);
      k in once.downloads && k in twice.downloads && twice.downloads[k].Origin() == once.downloads[k].Origin()
  {
    RevisionsAreIdempotent(a.downloads[k], Scraped(gens, k), m);
  }

  lemma SecondPassAddsNothing(a: App, gens: seq<GenRelease>, m: Mode)
    ensures
      var once := Merged(a, gens, m);
      var twice := Merged(once, gens, m);
      twice.releases == once.releases && twice.downloads.Keys == once.downloads.Keys
  {
    MergedReleasesKeys(a, gens, m);
    KnownVersionsAddNoRelease(Merged(a, gens, m), gens, m);
  }

  /**
   Two passes over one scrape reach a fixpoint, whatever was stored before: a
   third pass adds no release and no download and changes no URL, source or
   header.
   */
  lemma ThirdPassChangesNothing(a: App, gens: seq<GenRelease>, m: Mode)
    ensures
      var twice := Merged(Merged(a, gens, m), gens, m);
      SameCatalog(twice, Merged(twice, gens, m))
  {
    var once := Merged(a, gens, m);
    var twice := Merged(once, gens, m);
    SecondPassAddsNothing(once, gens, m);
    forall k | k in twice.downloads
      ensures Merged(twice, gens, m).downloads[k].Origin() == twice.downloads[k].Origin()
    {
      StoredRowsSettleInOnePass(once, gens, m, k);
    }
  }

  /** The own-build rule acts on an offer of this kind. */
  predicate LiveOwnBuild(g: GenDownload, m: Mode) {
    m.alive(g.url) && g.source == OwnBuild
  }

  /** A live own build that no rule moves a row away from. */
  predicate FinalOwnBuild(g: GenDownload, m: Mode) {
    LiveOwnBuild(g, m) && (m.mirrorOnly ==> g.url.Mirrored?)
  }

  /** The own build that a live replaceable row ends at: the first final one, or else the last live one. */
  ghost predicate IsLanding(offers: seq<GenDownload>, i: nat, m: Mode) {
    && i < |offers| && LiveOwnBuild(offers[i], m)
    && (if FinalOwnBuild(offers[i], m) then
          forall j :: 0 <= j < i ==> !FinalOwnBuild(offers[j], m)
        else
          && (forall j :: 0 <= j < |offers| ==> !FinalOwnBuild(offers[j], m))
          && (forall j :: i < j < |offers| ==> !LiveOwnBuild(offers[j], m)))
  }

  lemma {:induction false} ReplaceableWithoutFinal(d: Download, offers: seq<GenDownload>, m: Mode)
    requires m.alive(d.url) && Replaceable(d, m)
    requires forall j :: 0 <= j < |offers| ==> !FinalOwnBuild(offers[j], m)
    ensures m.alive(Revisions(d, offers, m).url) && Replaceable(Revisions(d, offers, m), m)
  {
    if offers != [] {
      ReplaceableWithoutFinal(d, offers[..|offers| - 1], m);
    }
  }

  lemma {:induction false} ReplaceableRowLands(d: Download, offers: seq<GenDownload>, m: Mode, i: nat)
    requires m.heal && m.alive(d.url) && Replaceable(d, m) && IsLanding(offers, i, m)
    ensures Revisions(d, offers, m).Origin() == offers[i].Origin()
  {
    var init, last := offers[..|offers| - 1], offers[|offers| - 1];
    assert forall j :: 0 <= j < |init| ==> init[j] == offers[j];
    if i == |init| {
      ReplaceableWithoutFinal(d, init, m);
    } else {
      ReplaceableRowLands(d, init, m, i);
    }
  }

  lemma {:induction false} LandingExists(offers: seq<GenDownload>, m: Mode, n: nat) returns (i: nat)
    requires n < |offers| && LiveOwnBuild(offers[n], m)
    ensures IsLanding(offers, i, m)
    decreases if FinalOwnBuild(offers[n], m) then n else |offers| + |offers| - n
  {
    if FinalOwnBuild(offers[n], m) {
      if j :| 0 <= j < n && FinalOwnBuild(offers[j], m) {
        i := LandingExists(offers, m, j);
      } else {
        i := n;
      }
    } else if j :| 0 <= j < |offers| && FinalOwnBuild(offers[j], m) {
      i := LandingExists(offers, m, j);
    } else if j :| n < j < |offers| && LiveOwnBuild(offers[j], m) {
      i := LandingExists(offers, m, j);
    } else {
      i := n;
    }
  }

  /** The scrape's first offer for a new key is where the row will stay. */
  ghost predicate FirstOfferStands(offers: seq<GenDownload>, m: Mode)
    requires offers != []
  {
    || !m.heal
    || (forall g :: g in offers ==> !m.alive(g.url))
    || (m.alive(offers[0].url) &&
        (Replaceable(Fresh(offers[0]), m) ==>
           forall i: nat :: IsLanding(offers, i, m) ==> offers[i].Origin() == offers[0].Origin()))
  }

  /** A live replaceable row stays exactly when the own build it would land at is where it is. */
  lemma ReplaceableRowStaysExactly(d: Download, offers: seq<GenDownload>, m: Mode)
    requires m.heal && m.alive(d.url) && Replaceable(d, m)
    ensures Revisions(d, offers, m).Origin() == d.Origin() <==>
            forall i: nat :: IsLanding(offers, i, m) ==> offers[i].Origin() == d.Origin()
  {
    forall i: nat | IsLanding(offers, i, m)
      ensures Revisions(d, offers, m).Origin() == offers[i].Origin()
    {
      ReplaceableRowLands(d, offers, m, i);
    }
    if n :| 0 <= n < |offers| && LiveOwnBuild(offers[n], m) {
      var i := LandingExists(offers, m, n);
    } else {
      assert forall g :: g in offers ==> !LiveOwnBuild(g, m);
      LiveRowMovesOnlyToOwnBuilds(d, offers, m);
    }
  }

  lemma FreshRowStaysExactly(offers: seq<GenDownload>, m: Mode)
    requires offers != []
    ensures Revisions(Fresh(offers[0]), offers, m).Origin() == offers[0].Origin() <==> FirstOfferStands(offers, m)
  {
    var d := Fresh(offers[0]);
    assert offers[0] in offers;
    if !m.heal {
      RevisionsNeverBreakLiveUrls(d, offers, m);
    } else if forall g :: g in offers ==> !m.alive(g.url) {
      DeadOffersChangeNothing(d, offers, m);
    } else if !m.alive(d.url) {
      RevisionsSettle(d, offers, m);
    } else if !Replaceable(d, m) {
      LiveRowMovesOnlyToOwnBuilds(d, offers, m);
    } else {
      ReplaceableRowStaysExactly(d, offers, m);
    }
  }

  /** The row was stored before the pass, or the first offer for its key stands. */
  ghost predicate KeySettles(a: App, gens: seq<GenRelease>, m: Mode, k: Key) {
    k in a.downloads || (Scraped(gens, k) != [] && FirstOfferStands(Scraped(gens, k), m))
  }

  lemma KeySettlesExactly(a: App, gens: seq<GenRelease>, m: Mode, k: Key)
    requires k in Merged(a, gens, m).downloads
    ensures
      var once := Merged(a, gens, m);
      var twice := Merged(once, gens, m);
      k in twice.downloads && (twice.downloads[k].Origin() == once.downloads[k].Origin() <==> KeySettles(a, gens, m, k))
  {
    KeysAreScraped(gens, k);
    if k in a.downloads {
      StoredRowsSettleInOnePass(a, gens, m, k);
    } else {
      FreshRowStaysExactly(Scraped(gens, k), m);
    }
  }

  /**
   Exactly when one pass is enough: the second pass changes nothing if and only
   if the first offer of every newly scraped key stands.
   */
  lemma OnePassSettlesExactly(a: App, gens: seq<GenRelease>, m: Mode)
    ensures
      var once := Merged(a, gens, m);
      SameCatalog(once, Merged(once, gens, m)) <==> forall k :: k in Keys(gens) ==> KeySettles(a, gens, m, k)
  {
    var once := Merged(a, gens, m);
    SecondPassAddsNothing(a, gens, m);
    forall k | k in once.downloads
      ensures Merged(once, gens, m).downloads[k].Origin() == once.downloads[k].Origin() <==> KeySettles(a, gens, m, k)
    {
      KeySettlesExactly(a, gens, m, k);
    }
    assert forall k :: k in Keys(gens) ==> k in once.downloads;
  }

  /** One dead and one live offer for a new key: the row the pass inserts still moves once. */
  lemma SecondPassMayChange(dead: Url, live: Url, alive: Url -> bool)
    requires alive(live) && !alive(dead)
    ensures
      var t := Triple("windows", "x64", "zip");
      var gens := [GenRelease("1.0", "1.0", "stable", None,
                              [GenDownload(dead, t, OtherSource("auto"), None, None),
                               GenDownload(live, t, OtherSource("auto"), None, None)])];
      var m := Mode(true, false, alive, v => v);
      var once := Merged(App(map[], map[]), gens, m);
      !SameCatalog(once, Merged(once, gens, m))
  {
    var t := Triple("windows", "x64", "zip");
    var g := GenDownload(dead, t, OtherSource("auto"), None, None);
    var h := GenDownload(live, t, OtherSource("auto"), None, None);
    var gens := [GenRelease("1.0", "1.0", "stable", None, [g, h])];
    var m := Mode(true, false, alive, v => v);
    var k := Key("1.0", t);
    assert Scraped(gens, k) == [g, h] by {
      assert gens[..0] == [] && Flat([]) == [];
      assert Flat(gens) == [Entry(k, g), Entry(k, h)];
      assert Flat(gens)[..1] == [Entry(k, g)] && [Entry(k, g)][..0] == [];
      assert OffersIn([], k) == [];
      assert OffersIn([Entry(k, g)], k) == [g];
    }
    KeysAreScraped(gens, k);
    var once := Merged(App(map[], map[]), gens, m);
    assert once.downloads[k] == Fresh(g);
    assert [g, h][..1] == [g] && [g][..0] == [];
    assert Revisions(Fresh(g), [], m) == Fresh(g);
    assert Revisions(Fresh(g), [g], m) == Revised(Fresh(g), g, m);
    assert Revisions(Fresh(g), [g, h], m).url == live;
    assert Merged(once, gens, m).downloads[k].url == live;
  }

  /**
   Healing does happen: when the scrape offers a live URL for a stored row, the
   row ends live; and when it offers a live own build (mirrored, for a mirror-only
   app), no superseded source and no unmirrored URL of a mirror-only app is left.
   */
  lemma PassHealsRows(a: App, gens: seq<GenRelease>, m: Mode, k: Key, g: GenDownload)
    requires m.heal && k in a.downloads && g in Scraped(gens, k) && m.alive(g.url)
    ensures
      var r := Merged(a, gens, m).downloads[k];
      && m.alive(r.url)
      && (g.source == OwnBuild && (m.mirrorOnly ==> g.url.Mirrored?) ==>
            r.source !in SUPERSEDED_BY_OWN_BUILDS && (m.mirrorOnly ==> r.url.Mirrored?))
  {
    RevisionsSettle(a.downloads[k], Scraped(gens, k), m);
  }

  lemma {:induction false} RevisionsAppend(d: Download, a: seq<GenDownload>, b: seq<GenDownload>, m: Mode)
    ensures Revisions(d, a + b, m) == Revisions(Revisions(d, a, m), b, m)
  {
    if b == [] {
      assert a + b == a;
    } else {
      RevisionsAppend(d, a, b[..|b| - 1], m);
      assert (a + b)[..|a + b| - 1] == a + b[..|b| - 1];
    }
  }

  /** No offer of the URL in the list has a size. */
  ghost predicate Unsized(offers: seq<GenDownload>, url: Url) {
    forall g :: g in offers && g.url == url ==> g.size.None?
  }

  /** The list offers a live own build at the URL. */
  ghost predicate OwnBuildAt(offers: seq<GenDownload>, url: Url, m: Mode) {
    exists g :: g in offers && g.url == url && LiveOwnBuild(g, m)
  }

  lemma UnsizedInit(offers: seq<GenDownload>, url: Url, m: Mode)
    requires offers != [] && Unsized(offers, url)
    ensures
      var init, last := offers[..|offers| - 1], offers[|offers| - 1];
      && Unsized(init, url) && (last.url == url ==> last.size.None?)
      && (OwnBuildAt(offers, url, m) <==> OwnBuildAt(init, url, m) || (last.url == url && LiveOwnBuild(last, m)))
  {
    assert offers == offers[..|offers| - 1] + [offers[|offers| - 1]];
  }

  /** Without an own build at the URL, a row that ends there never left it and keeps its size. */
  lemma {:induction false} SizeStaysWithoutOwnBuild(d: Download, offers: seq<GenDownload>, m: Mode, url: Url)
    requires Unsized(offers, url) && (m.heal ==> !OwnBuildAt(offers, url, m))
    requires m.heal && m.alive(url) ==> m.alive(d.url)
    requires Revisions(d, offers, m).url == url
    ensures d.url == url && Revisions(d, offers, m).size == d.size
  {
    if offers != [] {
      var init := offers[..|offers| - 1];
      UnsizedInit(offers, url, m);
      if m.heal && m.alive(url) {
        LiveRowMovesOnlyToOwnBuilds(d, init, m);
      }
      SizeStaysWithoutOwnBuild(d, init, m, url);
    }
  }

  /** A live row that no rule moves keeps its URL, and its size too. */
  lemma {:induction false} FinalRowKeepsItsSize(d: Download, offers: seq<GenDownload>, m: Mode)
    requires m.alive(d.url) && !Replaceable(d, m) && Unsized(offers, d.url)
    ensures Revisions(d, offers, m) == d
  {
    if offers != [] {
      UnsizedInit(offers, d.url, m);
      FinalRowKeepsItsSize(d, offers[..|offers| - 1], m);
    }
  }

  /** An own build at the URL takes the size of a replaceable row that ends there. */
  lemma {:induction false} OwnBuildTakesTheSize(d: Download, offers: seq<GenDownload>, m: Mode, url: Url)
    requires m.heal && m.alive(d.url) && (Replaceable(d, m) || d.url != url) && Unsized(offers, url)
    ensures
      var r := Revisions(d, offers, m);
      && m.alive(r.url)
      && (if OwnBuildAt(offers, url, m) then r.url == url ==> r.size.None? else Replaceable(r, m) || r.url != url)
  {
    if offers != [] {
      UnsizedInit(offers, url, m);
      OwnBuildTakesTheSize(d, offers[..|offers| - 1], m, url);
    }
  }

  /** The last sized offer of the URL that the row ends with. */
  ghost predicate IsLastSized(d: Download, offers: seq<GenDownload>, m: Mode, i: nat) {
    && i < |offers| && offers[i].size.Some? && offers[i].url == Revisions(d, offers, m).url
    && Unsized(offers[i + 1..], offers[i].url)
  }

  /**
   Exactly when a row ends with the size of the last sized offer of its URL: unless
   healing is on, the row was replaceable right after that offer, and a live own
   build at the URL follows, which is adopted without a size.
   */
  lemma SizeIsKeptExactly(d: Download, offers: seq<GenDownload>, m: Mode, i: nat)
    requires IsLastSized(d, offers, m, i)
    ensures Revisions(d, offers, m).size == offers[i].size <==>
            !(&& m.heal && Replaceable(Revisions(d, offers[..i + 1], m), m)
              && OwnBuildAt(offers[i + 1..], offers[i].url, m))
  {
    var before, rest, url := offers[..i + 1], offers[i + 1..], offers[i].url;
    var x := Revisions(d, before, m);
    assert offers == before + rest && before[..i] == offers[..i] && before[i] == offers[i];
    RevisionsAppend(d, before, rest, m);
    assert x.url == url ==> x.size == offers[i].size;
    if m.heal && m.alive(url) {
      RevisionsSettle(d, before, m);
      assert offers[i] in before;
    }
    if !m.heal || !OwnBuildAt(rest, url, m) {
      SizeStaysWithoutOwnBuild(x, rest, m, url);
    } else if Replaceable(x, m) {
      OwnBuildTakesTheSize(x, rest, m, url);
    } else {
      LiveRowMovesOnlyToOwnBuilds(x, rest, m);
      FinalRowKeepsItsSize(x, rest, m);
    }
  }

  /** A row that comes to a URL of which no offer has a size has none. */
  lemma {:induction false} ArrivedUnsized(d: Download, offers: seq<GenDownload>, m: Mode, url: Url)
    requires d.url != url && Unsized(offers, url)
    ensures Revisions(d, offers, m).url == url ==> Revisions(d, offers, m).size.None?
  {
    if offers != [] {
      UnsizedInit(offers, url, m);
      ArrivedUnsized(d, offers[..|offers| - 1], m, url);
    }
  }

  /** A size that a row did not have before at its URL is that of an offer of the URL. */
  lemma {:induction false} SizeIsOffered(d: Download, offers: seq<GenDownload>, m: Mode)
    ensures
      var r := Revisions(d, offers, m);
      || (r.url == d.url && r.size == d.size) || r.size.None?
      || exists g :: g in offers && g.url == r.url && g.size == r.size
  {
    if offers != [] {
      var init, last := offers[..|offers| - 1], offers[|offers| - 1];
      SizeIsOffered(d, init, m);
      assert last in offers && forall g :: g in init ==> g in offers;
    }
  }

  /**
   The size of every stored row after a pass. A row that moved carries the size of an
   offer scraped for its new URL, or none, and none for certain when no such offer has
   one. A row that stayed where no offer has a size keeps its own, unless healing is
   on, it was replaceable, and a live own build was offered at its URL.
   */
  lemma PassSizesRows(a: App, gens: seq<GenRelease>, m: Mode, k: Key)
    requires k in a.downloads
    ensures
      var offers, d, r := Scraped(gens, k), a.downloads[k], Merged(a, gens, m).downloads[k];
      && (r.url != d.url && r.size.Some? ==> exists g :: g in offers && g.url == r.url && g.size == r.size)
      && (r.url != d.url && (forall g :: g in offers && g.url == r.url ==> g.size.None?) ==> r.size == None)
      && (r.url == d.url && d.size.Some? && (forall g :: g in offers && g.url == r.url ==> g.size.None?) ==>
            (r.size == d.size <==> !(m.heal && Replaceable(d, m) && OwnBuildAt(offers, d.url, m))))
  {
    var offers, d := Scraped(gens, k), a.downloads[k];
    var r := Revisions(d, offers, m);
    SizeIsOffered(d, offers, m);
    if Unsized(offers, r.url) {
      if r.url != d.url {
        ArrivedUnsized(d, offers, m, r.url);
      } else if d.size.Some? {
        UnsizedRowKeepsExactly(d, offers, m);
      }
    }
  }

  lemma UnsizedRowKeepsExactly(d: Download, offers: seq<GenDownload>, m: Mode)
    requires Revisions(d, offers, m).url == d.url && Unsized(offers, d.url) && d.size.Some?
    ensures Revisions(d, offers, m).size == d.size <==>
            !(m.heal && Replaceable(d, m) && OwnBuildAt(offers, d.url, m))
  {
    if !m.heal || !OwnBuildAt(offers, d.url, m) {
      SizeStaysWithoutOwnBuild(d, offers, m, d.url);
    } else if Replaceable(d, m) {
      OwnBuildTakesTheSize(d, offers, m, d.url);
    } else {
      FinalRowKeepsItsSize(d, offers, m);
    }
  }

  /** An own build off the mirror that is offered again without a size clears the size. */
  lemma UnsizedOwnBuildClearsTheSize(url: Url, alive: Url -> bool, size: int)
    requires alive(url) && !url.Mirrored?
    ensures
      var m := Mode(true, true, alive, v => v);
      var t := Triple("windows", "x64", "zip");
      var g, h := GenDownload(url, t, OwnBuild, None, Some(size)), GenDownload(url, t, OwnBuild, None, None);
      Revisions(Fresh(g), [g, h], m).url == url && Revisions(Fresh(g), [g, h], m).size == None
  {
    var m := Mode(true, true, alive, v => v);
    var t := Triple("windows", "x64", "zip");
    var g, h := GenDownload(url, t, OwnBuild, None, Some(size)), GenDownload(url, t, OwnBuild, None, None);
    assert [g, h][..1] == [g] && [g][..0] == [];
    assert Revisions(Fresh(g), [], m) == Fresh(g);
    assert Revisions(Fresh(g), [g], m) == Fresh(g);
  }

  /** The row holds what the offer says, and no hash. */
  predicate IsRowOf(d: Download, g: GenDownload) {
    d.url == g.url && d.source == g.source && d.headers == g.headers && d.size == g.size && d.sha256.None?
  }

  /**
   A pass without `replace` conserves: every stored release stays as it is, every
   stored row stays under its release and platform, every scraped key has a row,
   and a row for a new key is the first offer scraped for it.
   */
  lemma PassConserves(a: App, gens: seq<GenRelease>, m: Mode)
    ensures
      var b := Merged(a, gens, m);
      && b.releases.Keys == a.releases.Keys + Versions(gens)
      && (forall v :: v in a.releases ==> b.releases[v] == a.releases[v])
      && b.downloads.Keys == a.downloads.Keys + Keys(gens)
      && (forall k :: k in Keys(gens) && k !in a.downloads ==>
            Scraped(gens, k) != [] && IsRowOf(b.downloads[k], Scraped(gens, k)[0]))
  {
    MergedReleasesKeepTheFirst(a, gens, m);
    forall k | k in Keys(gens) ensures Scraped(gens, k) != [] {
      KeysAreScraped(gens, k);
    }
  }

  /**
   Over a whole pass, a stored live URL is kept unless its source is superseded
   or it is an unmirrored URL of a mirror-only app; a URL that does change ends
   at a live URL scraped for the same version and platform; and the recorded
   hash is never touched.
   */
  lemma PassNeverBreaksLiveUrls(a: App, gens: seq<GenRelease>, m: Mode, k: Key)
    requires k in a.downloads
    ensures
      var d, r := a.downloads[k], Merged(a, gens, m).downloads[k];
      var exempt := d.source in SUPERSEDED_BY_OWN_BUILDS || (m.mirrorOnly && !d.url.Mirrored?);
      && (m.alive(d.url) && !exempt ==> r.Origin() == d.Origin())
      && (r.url != d.url ==>
            m.heal && m.alive(r.url) &&
            exists g :: g in Scraped(gens, k) && r.Origin() == g.Origin())
      && r.sha256 == d.sha256
  {
    RevisionsNeverBreakLiveUrls(a.downloads[k], Scraped(gens, k), m);
  }

  lemma PassKeepsForeignKeys(a: App, gens: seq<GenRelease>, m: Mode)
    requires ForeignKeys(a)
    ensures ForeignKeys(Merged(a, gens, m))
  {
    MergedReleasesKeys(a, gens, m);
    forall k | k in Keys(gens) ensures k.version in Versions(gens) {
      KeysHaveVersions(gens, k);
    }
  }

  lemma {:induction false} KeysHaveVersions(gens: seq<GenRelease>, k: Key)
    requires k in Keys(gens)
    ensures k.version in Versions(gens)
  {
    if gens != [] {
      var init := gens[..|gens| - 1];
      if k in Keys(init) {
        KeysHaveVersions(init, k);
      }
    }
  }

  // ------------------------------------------------------ the nested loop

  /**
   What a pass holds while it runs. Stored rows are revised in place. New rows
   wait in `queued`, where a lookup in the loaded collection does not see them.
   A bucket holds the triples seen for a release, loaded on its first touch.
   */
  datatype Pass = Pass(releases: map<string, Release>, stored: map<Key, Download>, queued: map<Key, Download>,
                       buckets: map<string, set<Triple>>, inserted: nat, written: nat)

  function StoredTriples(stored: map<Key, Download>, v: string): set<Triple> {
    set k | k in stored && k.version == v :: k.triple
  }

  /** Find or insert the release row and load its bucket. */
  function Touch(p: Pass, gen: GenRelease, m: Mode): Pass {
    var v := gen.version;
    var q := if v in p.releases then p
             else p.(releases := p.releases[v := NewRelease(gen, m)], inserted := p.inserted + 1);
    if v in q.buckets then q else q.(buckets := q.buckets[v := StoredTriples(q.stored, v)])
  }

  /** No row of a release that this scraped entry has just inserted is healed. */
  function RowMode(m: Mode, isNew: bool): Mode {
    m.(heal := m.heal && !isNew)
  }

  /** One scraped download of a touched release. */
  function Visit(p: Pass, e: Entry, isNew: bool, m: Mode): Pass
    requires e.key.version in p.buckets
  {
    var v, t := e.key.version, e.key.triple;
    if t !in p.buckets[v] then
      p.(queued := p.queued[e.key := Fresh(e.offer)], buckets := p.buckets[v := p.buckets[v] + {t}],
         written := p.written + if isNew then 0 else 1)
    else if e.key in p.stored then
      p.(stored := p.stored[e.key := Revised(p.stored[e.key], e.offer, RowMode(m, isNew))],
         written := p.written + Writes(p.stored[e.key], e.offer, RowMode(m, isNew)))
    else
      p
  }

  /** How many of the pass's counters a stored row moves. */
  function Writes(d: Download, g: GenDownload, m: Mode): nat {
    (if Refreshes(d, g) then 1 else 0) + (if Heals(d, g, m) then 1 else 0)
  }

  function VisitAll(p: Pass, v: string, gds: seq<GenDownload>, isNew: bool, m: Mode): (q: Pass)
    requires v in p.buckets
    ensures v in q.buckets
  {
    if gds == [] then p
    else
      var gd := gds[|gds| - 1];
      Visit(VisitAll(p, v, gds[..|gds| - 1], isNew, m), Entry(Key(v, gd.triple), gd), isNew, m)
  }

  function VisitRelease(p: Pass, gen: GenRelease, m: Mode): Pass {
    VisitAll(Touch(p, gen, m), gen.version, gen.downloads, gen.version !in p.releases, m)
  }

  function VisitReleases(p: Pass, gens: seq<GenRelease>, m: Mode): Pass {
    if gens == [] then p else VisitRelease(VisitReleases(p, gens[..|gens| - 1], m), gens[|gens| - 1], m)
  }

  function Start(a: App): Pass {
    Pass(a.releases, a.downloads, map[], map[], 0, 0)
  }

  /** What a pass over `a` has done about one key, once it has visited these offers for it. */
  ghost predicate KeyDone(a: App, offers: seq<GenDownload>, k: Key, m: Mode, p: Pass) {
    && (k in p.stored <==> k in a.downloads)
    && (k in p.stored ==> p.stored[k] == Revisions(a.downloads[k], offers, m))
    && (k in p.queued <==> k !in p.stored && offers != [])
    && (k in p.queued ==> p.queued[k] == Fresh(offers[0]) && k.version in p.buckets)
    && (k.version in p.buckets ==> (k.triple in p.buckets[k.version] <==> k in p.stored || k in p.queued))
  }

  /** One more offer revises the stored row of its key, is queued, or is ignored in favour of the queued one. */
  lemma VisitKey(a: App, offers: seq<GenDownload>, k: Key, m: Mode, p: Pass, e: Entry, isNew: bool)
    requires e.key.version in p.buckets
    requires KeyDone(a, offers, k, m, p)
    requires isNew && e.key == k ==> k !in a.downloads
    ensures KeyDone(a, offers + (if e.key == k then [e.offer] else []), k, m, Visit(p, e, isNew, m))
    // the UNIQUE constraint on (release, os, arch, archive type) holds for every queued row
    ensures e.key == k && k.triple !in p.buckets[k.version] ==> k !in p.stored && k !in p.queued
  {
    if e.key == k {
      assert (offers + [e.offer])[..|offers|] == offers;
    } else {
      assert offers + [] == offers;
    }
  }

  /** Touching a release for the first time loads exactly the triples stored for it. */
  lemma TouchKey(a: App, offers: seq<GenDownload>, k: Key, m: Mode, p: Pass, gen: GenRelease)
    requires KeyDone(a, offers, k, m, p)
    ensures KeyDone(a, offers, k, m, Touch(p, gen, m))
  {
    if k.version == gen.version && k.triple in StoredTriples(p.stored, gen.version) {
      var k' :| k' in p.stored && k'.version == gen.version && k'.triple == k.triple;
      assert k' == k;
    }
  }

  lemma OffersSnoc(es: seq<Entry>, e: Entry, k: Key)
    ensures OffersIn(es + [e], k) == OffersIn(es, k) + (if e.key == k then [e.offer] else [])
  {
    assert (es + [e])[..|es|] == es;
  }

  lemma {:induction false} VisitAllKey(a: App, es: seq<Entry>, k: Key, m: Mode, p: Pass,
                                       v: string, gds: seq<GenDownload>, isNew: bool)
    requires v in p.buckets
    requires KeyDone(a, OffersIn(es, k), k, m, p)
    requires isNew && k.version == v ==> k !in a.downloads
    ensures KeyDone(a, OffersIn(es + EntriesOf(v, gds), k), k, m, VisitAll(p, v, gds, isNew, m))
  {
    if gds == [] {
      assert es + EntriesOf(v, gds) == es;
    } else {
      var init, gd := gds[..|gds| - 1], gds[|gds| - 1];
      var e := Entry(Key(v, gd.triple), gd);
      var sofar := es + EntriesOf(v, init);
      VisitAllKey(a, es, k, m, p, v, init, isNew);
      VisitKey(a, OffersIn(sofar, k), k, m, VisitAll(p, v, init, isNew, m), e, isNew);
      OffersSnoc(sofar, e, k);
      EntriesSnoc(es, v, gds);
    }
  }

  lemma EntriesSnoc(es: seq<Entry>, v: string, gds: seq<GenDownload>)
    requires gds != []
    ensures
      var gd := gds[|gds| - 1];
      es + EntriesOf(v, gds) == es + EntriesOf(v, gds[..|gds| - 1]) + [Entry(Key(v, gd.triple), gd)]
  {
  }

  /** No row is stored under a version that is not there yet, so the guard against healing one stops no heal. */
  lemma NewReleaseHasNoRows(a: App, gens: seq<GenRelease>, m: Mode, k: Key)
    requires ForeignKeys(a) && k.version !in VisitReleases(Start(a), gens, m).releases
    ensures k !in a.downloads
  {
    VisitReleasesQuiet(a, gens, m);
    MergedReleasesKeys(a, gens, m);
  }

  lemma {:induction false} VisitReleasesKey(a: App, gens: seq<GenRelease>, k: Key, m: Mode)
    requires ForeignKeys(a)
    ensures KeyDone(a, Scraped(gens, k), k, m, VisitReleases(Start(a), gens, m))
  {
    if gens != [] {
      var init, gen := gens[..|gens| - 1], gens[|gens| - 1];
      var p := VisitReleases(Start(a), init, m);
      VisitReleasesKey(a, init, k, m);
      TouchKey(a, Scraped(init, k), k, m, p, gen);
      if k.version == gen.version && gen.version !in p.releases {
        NewReleaseHasNoRows(a, init, m, k);
      }
      VisitAllKey(a, Flat(init), k, m, Touch(p, gen, m), gen.version, gen.downloads, gen.version !in p.releases);
    }
  }

  /** The release rows and the count are settled by the touch. */
  lemma {:induction false} VisitAllFrames(p: Pass, v: string, gds: seq<GenDownload>, isNew: bool, m: Mode)
    requires v in p.buckets
    ensures
      var q := VisitAll(p, v, gds, isNew, m);
      && q.releases == p.releases && q.inserted == p.inserted && q.written >= p.written
      && (!isNew && q.written == p.written ==> q.stored == p.stored && q.queued == p.queued)
  {
    if gds != [] {
      VisitAllFrames(p, v, gds[..|gds| - 1], isNew, m);
    }
  }

  /** The release rows, and what untouched counters mean. */
  lemma {:induction false} VisitReleasesQuiet(a: App, gens: seq<GenRelease>, m: Mode)
    ensures
      var q := VisitReleases(Start(a), gens, m);
      && q.releases == MergedReleases(a, gens, m)
      && (q.inserted == q.written == 0 ==> q.releases == a.releases && q.stored == a.downloads && q.queued == map[])
  {
    if gens != [] {
      var init, gen := gens[..|gens| - 1], gens[|gens| - 1];
      var p := VisitReleases(Start(a), init, m);
      VisitReleasesQuiet(a, init, m);
      VisitAllFrames(Touch(p, gen, m), gen.version, gen.downloads, gen.version !in p.releases, m);
    }
  }

  lemma CountOneMore(known: set<string>, seen: set<string>, v: string)
    ensures |(seen + {v}) - known| == |seen - known| + if v in known + seen then 0 else 1
  {
    assert (seen + {v}) - known == if v in known + seen then seen - known else (seen - known) + {v};
  }

  /** A scraped release adds one to the count exactly when its version has no row yet. */
  lemma VisitReleaseCounts(p: Pass, gen: GenRelease, m: Mode)
    ensures VisitRelease(p, gen, m).inserted == p.inserted + if gen.version in p.releases then 0 else 1
  {
    VisitAllFrames(Touch(p, gen, m), gen.version, gen.downloads, gen.version !in p.releases, m);
  }

  /** The count is the number of distinct scraped versions that were absent. */
  lemma {:induction false} VisitReleasesCount(a: App, gens: seq<GenRelease>, m: Mode)
    ensures VisitReleases(Start(a), gens, m).inserted == |Versions(gens) - a.releases.Keys|
  {
    if gens == [] {
      assert Versions([]) - a.releases.Keys == {};
    } else {
      var init, gen := gens[..|gens| - 1], gens[|gens| - 1];
      var p := VisitReleases(Start(a), init, m);
      VisitReleasesCount(a, init, m);
      VisitReleasesQuiet(a, init, m);
      MergedReleasesKeys(a, init, m);
      VisitReleaseCounts(p, gen, m);
      CountOneMore(a.releases.Keys, Versions(init), gen.version);
    }
  }

  // ------------------------------------------- when a pass reports a change

  /** A mirror-only app's row off the mirror, with a live own build on offer. */
  ghost predicate IsHealedAgain(d: Download, offers: seq<GenDownload>, m: Mode) {
    m.heal && m.mirrorOnly && !d.url.Mirrored? && exists g :: g in offers && LiveOwnBuild(g, m)
  }

  ghost predicate IsResized(d: Download, offers: seq<GenDownload>) {
    exists g :: g in offers && Refreshes(d, g)
  }

  lemma {:induction false} OffersAreEntries(es: seq<Entry>, k: Key, g: GenDownload)
    ensures g in OffersIn(es, k) <==> Entry(k, g) in es
  {
    if es != [] {
      OffersAreEntries(es[..|es| - 1], k, g);
      assert es == es[..|es| - 1] + [es[|es| - 1]];
    }
  }

  /** A row that a pass has left is written again exactly when it is healed again or resized. */
  lemma RowIsWrittenAgainExactly(a: App, gens: seq<GenRelease>, m: Mode, k: Key)
    requires k in a.downloads
    ensures
      var offers, d := Scraped(gens, k), Merged(a, gens, m).downloads[k];
      (exists g :: g in offers && Touches(d, g, m)) <==> IsHealedAgain(d, offers, m) || IsResized(d, offers)
  {
    RowIsHealedAgainExactly(a.downloads[k], Scraped(gens, k), m);
  }

  /**
   What a report of a change with no change means: a pass over a catalog that two
   passes have settled changes no URL, source or header, yet drops the cached
   response exactly when some row is healed again or resized.
   */
  lemma SettledPassReportsExactly(a: App, gens: seq<GenRelease>, m: Mode)
    ensures
      var once := Merged(a, gens, m);
      var twice := Merged(once, gens, m);
      NothingToDo(twice, gens, m) <==>
      forall k :: k in Keys(gens) ==>
        !IsHealedAgain(twice.downloads[k], Scraped(gens, k), m) && !IsResized(twice.downloads[k], Scraped(gens, k))
  {
    var once := Merged(a, gens, m);
    var twice := Merged(once, gens, m);
    MergedReleasesKeys(once, gens, m);
    forall k | k in Keys(gens)
      ensures (forall g :: Entry(k, g) in Flat(gens) ==> IsIdle(twice, Entry(k, g), m)) <==>
              !IsHealedAgain(twice.downloads[k], Scraped(gens, k), m) &&
              !IsResized(twice.downloads[k], Scraped(gens, k))
    {
      RowIsWrittenAgainExactly(once, gens, m, k);
      forall g ensures g in Scraped(gens, k) <==> Entry(k, g) in Flat(gens) {
        OffersAreEntries(Flat(gens), k, g);
      }
    }
    IdleByKey(twice, gens, m);
  }

  lemma IdleByKey(a: App, gens: seq<GenRelease>, m: Mode)
    ensures AllIdle(a, Flat(gens), m) <==>
            forall k :: k in Keys(gens) ==> forall g :: Entry(k, g) in Flat(gens) ==> IsIdle(a, Entry(k, g), m)
  {
    forall e | e in Flat(gens) ensures e.key in Keys(gens) && e == Entry(e.key, e.offer) {
    }
  }

  /** The offer would be written into the row: a new size, or a heal. */
  predicate Touches(d: Download, g: GenDownload, m: Mode) {
    Refreshes(d, g) || Heals(d, g, m)
  }

  /** The entry's row is stored, and the entry would not be written into it. */
  predicate IsIdle(a: App, e: Entry, m: Mode) {
    e.key in a.downloads && !Touches(a.downloads[e.key], e.offer, m)
  }

  ghost predicate AllIdle(a: App, es: seq<Entry>, m: Mode) {
    forall e :: e in es ==> IsIdle(a, e, m)
  }

  /** No version and no key is new, and no offer would be written into the row as it is stored. */
  ghost predicate NothingToDo(a: App, gens: seq<GenRelease>, m: Mode) {
    Versions(gens) <= a.releases.Keys && AllIdle(a, Flat(gens), m)
  }

  /** So far the pass has changed no row, and the bucket holds what is stored. */
  ghost predicate Undisturbed(a: App, p: Pass, v: string) {
    && p.stored == a.downloads && v in p.buckets
    && (forall t :: t in p.buckets[v] <==> Key(v, t) in a.downloads)
  }

  lemma VisitIdle(a: App, p: Pass, e: Entry, m: Mode)
    requires Undisturbed(a, p, e.key.version)
    ensures
      var q := Visit(p, e, false, m);
      && q.written >= p.written && (q.written == p.written <==> IsIdle(a, e, m))
      && (q.written == p.written ==> Undisturbed(a, q, e.key.version))
  {
    assert RowMode(m, false) == m;
    assert Key(e.key.version, e.key.triple) == e.key;
  }

  lemma AllIdleSnoc(a: App, es: seq<Entry>, e: Entry, m: Mode)
    ensures AllIdle(a, es + [e], m) <==> AllIdle(a, es, m) && IsIdle(a, e, m)
  {
    assert e in es + [e];
    assert forall e' :: e' in es ==> e' in es + [e];
  }

  lemma {:induction false} VisitAllIdle(a: App, p: Pass, v: string, gds: seq<GenDownload>, m: Mode)
    requires Undisturbed(a, p, v)
    ensures
      var q := VisitAll(p, v, gds, false, m);
      && q.written >= p.written && (q.written == p.written <==> AllIdle(a, EntriesOf(v, gds), m))
      && (q.written == p.written ==> Undisturbed(a, q, v))
  {
    if gds != [] {
      var init, gd := gds[..|gds| - 1], gds[|gds| - 1];
      var e := Entry(Key(v, gd.triple), gd);
      VisitAllIdle(a, p, v, init, m);
      VisitAllFrames(p, v, gds, false, m);
      var q := VisitAll(p, v, init, false, m);
      if q.written == p.written {
        VisitIdle(a, q, e, m);
      } else {
        VisitOnlyAdds(q, e, false, m);
      }
      assert EntriesOf(v, gds) == EntriesOf(v, init) + [e];
      AllIdleSnoc(a, EntriesOf(v, init), e, m);
    }
  }

  lemma VisitOnlyAdds(p: Pass, e: Entry, isNew: bool, m: Mode)
    requires e.key.version in p.buckets
    ensures Visit(p, e, isNew, m).written >= p.written
  {
  }

  lemma TouchUndisturbed(a: App, gens: seq<GenRelease>, gen: GenRelease, m: Mode)
    requires ForeignKeys(a)
    requires
      var p := VisitReleases(Start(a), gens, m);
      p.inserted == p.written == 0
    ensures Undisturbed(a, Touch(VisitReleases(Start(a), gens, m), gen, m), gen.version)
  {
    var p := VisitReleases(Start(a), gens, m);
    var q := Touch(p, gen, m);
    VisitReleasesQuiet(a, gens, m);
    forall t ensures t in q.buckets[gen.version] <==> Key(gen.version, t) in a.downloads {
      var k := Key(gen.version, t);
      VisitReleasesKey(a, gens, k, m);
      TouchKey(a, Scraped(gens, k), k, m, p, gen);
    }
  }

  lemma NothingToDoSnoc(a: App, init: seq<GenRelease>, gen: GenRelease, gens: seq<GenRelease>, m: Mode)
    requires gens == init + [gen]
    ensures NothingToDo(a, gens, m) <==>
            NothingToDo(a, init, m) && gen.version in a.releases && AllIdle(a, EntriesOf(gen.version, gen.downloads), m)
  {
    assert gens[..|gens| - 1] == init;
    var es := EntriesOf(gen.version, gen.downloads);
    assert forall e :: e in Flat(gens) <==> e in Flat(init) || e in es;
  }

  /** The counters of a pass stay at zero exactly when there is nothing to do, told from the rows as stored. */
  lemma {:induction false} CountersTellExactly(a: App, gens: seq<GenRelease>, m: Mode)
    requires ForeignKeys(a)
    ensures
      var q := VisitReleases(Start(a), gens, m);
      q.inserted == q.written == 0 <==> NothingToDo(a, gens, m)
  {
    if gens != [] {
      var init, gen := gens[..|gens| - 1], gens[|gens| - 1];
      var p := VisitReleases(Start(a), init, m);
      CountersTellExactly(a, init, m);
      NothingToDoSnoc(a, init, gen, gens, m);
      VisitReleaseCounts(p, gen, m);
      VisitAllFrames(Touch(p, gen, m), gen.version, gen.downloads, gen.version !in p.releases, m);
      if p.inserted == p.written == 0 {
        VisitReleasesQuiet(a, init, m);
        if gen.version in a.releases {
          TouchUndisturbed(a, init, gen, m);
          VisitAllIdle(a, Touch(p, gen, m), gen.version, gen.downloads, m);
        }
      }
    }
  }

  /** Committing a finished pass gives the declarative result. */
  lemma PassIsMerged(a: App, gens: seq<GenRelease>, m: Mode)
    requires ForeignKeys(a)
    ensures
      var q := VisitReleases(Start(a), gens, m);
      q.stored + q.queued == Merged(a, gens, m).downloads
  {
    var q := VisitReleases(Start(a), gens, m);
    forall k
      ensures k in q.stored || k in q.queued <==> k in Merged(a, gens, m).downloads
      ensures k in q.queued ==> k !in q.stored && q.queued[k] == Merged(a, gens, m).downloads[k]
      ensures k in q.stored ==> q.stored[k] == Merged(a, gens, m).downloads[k]
    {
      PassIsMergedAt(a, gens, m, k);
    }
    UnionIs(q.stored, q.queued, Merged(a, gens, m).downloads);
  }

  lemma UnionIs(a: map<Key, Download>, b: map<Key, Download>, c: map<Key, Download>)
    requires forall k :: k in a || k in b <==> k in c
    requires forall k :: k in b ==> k !in a && b[k] == c[k]
    requires forall k :: k in a ==> a[k] == c[k]
    ensures a + b == c
  {
  }

  lemma PassIsMergedAt(a: App, gens: seq<GenRelease>, m: Mode, k: Key)
    requires ForeignKeys(a)
    ensures
      var q := VisitReleases(Start(a), gens, m);
      && (k in q.stored || k in q.queued <==> k in Merged(a, gens, m).downloads)
      && (k in q.queued ==> k !in q.stored && q.queued[k] == Merged(a, gens, m).downloads[k])
      && (k in q.stored ==> q.stored[k] == Merged(a, gens, m).downloads[k])
  {
    KeysAreScraped(gens, k);
    VisitReleasesKey(a, gens, k, m);
  }

  function Commit(p: Pass): App {
    App(p.releases, p.stored + p.queued)
  }

  lemma PassEnds(a: App, gens: seq<GenRelease>, m: Mode)
    requires ForeignKeys(a)
    ensures
      var q := VisitReleases(Start(a), gens, m);
      && Commit(q) == Merged(a, gens, m)
      && q.inserted == |Versions(gens) - a.releases.Keys|
      && (q.inserted == q.written == 0 ==> Commit(q) == a)
      && (q.inserted == q.written == 0 <==> NothingToDo(a, gens, m))
  {
    var q := VisitReleases(Start(a), gens, m);
    CountersTellExactly(a, gens, m);
    PassIsMerged(a, gens, m);
    VisitReleasesQuiet(a, gens, m);
    VisitReleasesCount(a, gens, m);
    if q.inserted == q.written == 0 {
      CommitOfNothing(q, a);
    }
  }

  lemma CommitOfNothing(p: Pass, a: App)
    requires p.releases == a.releases && p.stored == a.downloads && p.queued == map[]
    ensures Commit(p) == a
  {
    assert p.stored + map[] == p.stored;
  }

  /** The in-place update of one stored row, and how many counters it moves. */
  method ReviseRow(d: Download, gd: GenDownload, m: Mode) returns (row: Download, writes: nat)
    ensures row == Revised(d, gd, m)
    ensures writes == Writes(d, gd, m)
  {
    row, writes := d, 0;
    if row.url == gd.url && gd.size.Some? && row.size != gd.size {
      row := row.(size := gd.size);
      writes := writes + 1;
    }
    if m.heal {
      if gd.source == OwnBuild
         && (row.source in SUPERSEDED_BY_OWN_BUILDS || (m.mirrorOnly && !row.url.Mirrored?))
         && m.alive(gd.url) {
        row := row.(url := gd.url, source := gd.source, headers := gd.headers, size := gd.size);
        writes := writes + 1;
      } else if row.url != gd.url && !m.alive(row.url) && m.alive(gd.url) {
        row := row.(url := gd.url, source := gd.source, headers := gd.headers, size := gd.size);
        writes := writes + 1;
      }
    }
  }

  /** One scraped download against its release's bucket. */
  method VisitDownload(p: Pass, version: string, gd: GenDownload, isNew: bool, m: Mode) returns (q: Pass)
    requires version in p.buckets
    ensures q == Visit(p, Entry(Key(version, gd.triple), gd), isNew, m)
  {
    q := p;
    var k := Key(version, gd.triple);
    if gd.triple in p.buckets[version] {
      if k in p.stored {
        var row, writes := ReviseRow(p.stored[k], gd, RowMode(m, isNew));
        q := q.(stored := q.stored[k := row], written := q.written + writes);
      }
    } else {
      q := q.(buckets := q.buckets[version := q.buckets[version] + {gd.triple}], queued := q.queued[k := Fresh(gd)]);
      if !isNew {
        q := q.(written := q.written + 1);
      }
    }
  }

  lemma VisitAllStep(p: Pass, v: string, gds: seq<GenDownload>, j: nat, isNew: bool, m: Mode)
    requires v in p.buckets && j < |gds|
    ensures VisitAll(p, v, gds[..j + 1], isNew, m) ==
            Visit(VisitAll(p, v, gds[..j], isNew, m), Entry(Key(v, gds[j].triple), gds[j]), isNew, m)
  {
    assert gds[..j + 1][..j] == gds[..j];
  }

  /** The inner loop: the downloads of one scraped release. */
  method VisitDownloads(p: Pass, gen: GenRelease, isNew: bool, m: Mode) returns (q: Pass)
    requires gen.version in p.buckets
    ensures q == VisitAll(p, gen.version, gen.downloads, isNew, m)
  {
    q := p;
    var j := 0;
    while j < |gen.downloads|
      invariant 0 <= j <= |gen.downloads|
      invariant q == VisitAll(p, gen.version, gen.downloads[..j], isNew, m)
    {
      VisitAllStep(p, gen.version, gen.downloads, j, isNew, m);
      q := VisitDownload(q, gen.version, gen.downloads[j], isNew, m);
      j := j + 1;
    }
    assert gen.downloads[..|gen.downloads|] == gen.downloads;
  }

  lemma VisitReleasesStep(p: Pass, gens: seq<GenRelease>, i: nat, m: Mode)
    requires i < |gens|
    ensures VisitReleases(p, gens[..i + 1], m) == VisitRelease(VisitReleases(p, gens[..i], m), gens[i], m)
  {
    assert gens[..i + 1][..i] == gens[..i];
  }

  /** The outer loop: find or insert each scraped release, then visit its downloads. */
  method VisitScrape(a: App, gens: seq<GenRelease>, m: Mode) returns (p: Pass)
    ensures p == VisitReleases(Start(a), gens, m)
  {
    p := Start(a);
    var i := 0;
    while i < |gens|
      invariant 0 <= i <= |gens|
      invariant p == VisitReleases(Start(a), gens[..i], m)
    {
      VisitReleasesStep(Start(a), gens, i, m);
      var isNew := gens[i].version !in p.releases;
      p := Touch(p, gens[i], m);
      p := VisitDownloads(p, gens[i], isNew, m);
      i := i + 1;
    }
    assert gens[..|gens|] == gens;
  }

  /**
   The whole pass over one app; `changed` is the test that guards cache
   invalidation. It may be set by a pass that leaves everything as it was.
   */
  method MergeApp(a: App, gens: seq<GenRelease>, m: Mode) returns (merged: App, inserted: nat, changed: bool)
    requires ForeignKeys(a)
    ensures merged == Merged(a, gens, m) && ForeignKeys(merged)
    ensures inserted == |Versions(gens) - a.releases.Keys|
    ensures !changed <==> NothingToDo(a, gens, m)
    ensures !changed ==> merged == a
  {
    var p := VisitScrape(a, gens, m);
    PassEnds(a, gens, m);
    PassKeepsForeignKeys(a, gens, m);
    inserted := p.inserted;
    merged := Commit(p);
    changed := p.inserted > 0 || p.written > 0;
  }

  function ModeFor(id: string, heal: bool, alive: Url -> bool): Mode {
    Mode(heal, id in MIRROR_ONLY_APPS, alive, MajorMinor)
  }

  const NO_ROWS := App(map[], map[])

  lemma UpdateOfSame(apps: map<string, App>, id: string, a: App)
    requires id in apps && apps[id] == a
    ensures apps[id := a] == apps
  {
  }

  /**
   What a pass of the service does to a stored row, told by app id and settings. With
   healing off no origin changes. With healing on, a live URL is kept unless it comes
   from php.net or is an apache or mysql URL off the mirror; and a row for which a live
   URL was scraped ends live, on the mirror and not from php.net if that is an own
   build (mirrored, for apache and mysql).
   */
  lemma PassForApp(a: App, gens: seq<GenRelease>, id: string, heal: bool, alive: Url -> bool, k: Key)
    requires k in a.downloads
    ensures
      var d, r := a.downloads[k], Merged(a, gens, ModeFor(id, heal, alive)).downloads[k];
      var mirrorOnly := id == "apache" || id == "mysql";
      && (!heal ==> r.Origin() == d.Origin())
      && (alive(d.url) && d.source != PhpNet && (mirrorOnly ==> d.url.Mirrored?) ==> r.Origin() == d.Origin())
      && (forall g :: heal && g in Scraped(gens, k) && alive(g.url) ==>
            && alive(r.url)
            && (g.source == OwnBuild && (mirrorOnly ==> g.url.Mirrored?) ==>
                  r.source != PhpNet && (mirrorOnly ==> r.url.Mirrored?)))
  {
    var m := ModeFor(id, heal, alive);
    RevisionsNeverBreakLiveUrls(a.downloads[k], Scraped(gens, k), m);
    forall g | heal && g in Scraped(gens, k) && alive(g.url)
      ensures
        var r, mirrorOnly := Merged(a, gens, m).downloads[k], id == "apache" || id == "mysql";
        && alive(r.url)
        && (g.source == OwnBuild && (mirrorOnly ==> g.url.Mirrored?) ==>
              r.source != PhpNet && (mirrorOnly ==> r.url.Mirrored?))
    {
      PassHealsRows(a, gens, m, k, g);
    }
  }

  /** A new release whose scrape names no branch gets the first two parts of its version. */
  lemma NewReleaseForApp(a: App, gens: seq<GenRelease>, id: string, heal: bool, alive: Url -> bool, i: nat)
    requires i < |gens| && gens[i].version !in a.releases && gens[i].majorMinor == ""
    requires forall j :: 0 <= j < i ==> gens[j].version != gens[i].version
    ensures
      var v := gens[i].version;
      var r := Merged(a, gens, ModeFor(id, heal, alive)).releases;
      && v in r && r[v].majorMinor <= v && Dots(r[v].majorMinor) <= 1
      && (r[v].majorMinor == v || (v[|r[v].majorMinor|] == '.' && Dots(r[v].majorMinor) == 1))
  {
    NewReleaseCarriesTheScrape(a, gens, ModeFor(id, heal, alive), i);
    MajorMinorIsTwoParts(gens[i].version);
  }

  class Catalog {
    var apps: map<string, App>

    /** A serialized catalog response is held in this process. */
    var cached: bool

    /** The database's foreign keys hold in every app. */
    ghost predicate Valid()
      reads this
    {
      forall id :: id in apps ==> ForeignKeys(apps[id])
    }

    /**
     One pass for the app with the given (lower-case) id. Returns the number of
     distinct scraped versions that were absent. A held response survives exactly
     a pass that has nothing to do.
     */
    method ApplyGenerated(id: string, gens: seq<GenRelease>, replace: bool, heal: bool, alive: Url -> bool)
      returns (inserted: nat)
      requires Valid()
      modifies this
      ensures Valid()
      ensures id !in old(apps) ==> inserted == 0 && apps == old(apps) && cached == old(cached)
      ensures id in old(apps) ==>
                var before := if replace then NO_ROWS else old(apps)[id];
                && apps == old(apps)[id := Merged(before, gens, ModeFor(id, heal, alive))]
                && inserted == |Versions(gens) - before.releases.Keys|
      ensures cached <==>
              && old(cached)
              && (id in old(apps) ==> !replace && NothingToDo(old(apps)[id], gens, ModeFor(id, heal, alive)))
      ensures cached ==> apps == old(apps)
    {
      if id !in apps {
        return 0;
      }
      var before := if replace then NO_ROWS else apps[id];
      var merged, changed;
      merged, inserted, changed := MergeApp(before, gens, ModeFor(id, heal, alive));
      if changed || replace {
        cached := false;
      } else {
        UpdateOfSame(apps, id, merged);
      }
      apps := apps[id := merged];
    }
  }
}
