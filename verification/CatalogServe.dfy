/**
 Assembling the served document of one app (app/service.py): releases by numeric
 version, newest first, without stable-channel pre-releases and without versions
 whose every download has been withdrawn.
 */
module CatalogServe {
  import opened Common
  import opened Decimal
  import opened CatalogMerge

  const MIN_DOWNLOAD_BYTES := 100_000

  // ------------------------------------------------------------ version keys

  /** The digits at the front of a text. */
  function LeadingDigits(s: string): (r: string)
    ensures r <= s && forall c :: c in r ==> IsDigit(c)
  {
    if s == "" || !IsDigit(s[0]) then "" else [s[0]] + LeadingDigits(s[1..])
  }

  /** Every run of digits in a version, as a number. */
  function VersionKey(version: string): seq<nat>
    decreases |version|
  {
    var run := LeadingDigits(version);
    if version == "" then []
    else if run == "" then VersionKey(version[1..])
    else [Value(run)] + VersionKey(version[|run|..])
  }

  /** Tuple order: at the first difference, or a proper prefix first. */
  predicate Less(a: seq<nat>, b: seq<nat>) {
    if b == [] then false
    else if a == [] then true
    else a[0] < b[0] || (a[0] == b[0] && Less(a[1..], b[1..]))
  }

  /** A run of digits behind a gap without any. */
  datatype Piece = Piece(gap: string, run: string)

  ghost predicate NoDigits(s: string) {
    forall c :: c in s ==> !IsDigit(c)
  }

  /** Runs are digits only and not empty, gaps hold none, and only the first gap may be empty. */
  ghost predicate ArePieces(pieces: seq<Piece>) {
    && (forall i :: 0 <= i < |pieces| ==> NoDigits(pieces[i].gap))
    && (forall i :: 0 <= i < |pieces| ==> pieces[i].run != "" && forall c :: c in pieces[i].run ==> IsDigit(c))
    && (forall i :: 1 <= i < |pieces| ==> pieces[i].gap != "")
  }

  function Pieced(pieces: seq<Piece>, tail: string): string {
    if pieces == [] then tail else pieces[0].gap + (pieces[0].run + Pieced(pieces[1..], tail))
  }

  ghost function RunValues(pieces: seq<Piece>): seq<nat>
    requires ArePieces(pieces)
  {
    seq(|pieces|, i requires 0 <= i < |pieces| => Value(pieces[i].run))
  }

  lemma {:induction false} VersionKeySkipsGap(gap: string, rest: string)
    requires NoDigits(gap)
    ensures VersionKey(gap + rest) == VersionKey(rest)
  {
    if gap == "" {
      assert gap + rest == rest;
    } else {
      assert gap[0] in gap && (gap + rest)[0] == gap[0] && (gap + rest)[1..] == gap[1..] + rest;
      assert LeadingDigits(gap + rest) == "";
      VersionKeySkipsGap(gap[1..], rest);
    }
  }

  /** For every version text, cut into gaps and runs of digits: the key is the list of the runs' values. */
  lemma {:induction false} VersionKeyOfPieces(pieces: seq<Piece>, tail: string)
    requires ArePieces(pieces) && NoDigits(tail)
    ensures VersionKey(Pieced(pieces, tail)) == RunValues(pieces)
  {
    if pieces == [] {
      assert tail + "" == tail;
      VersionKeySkipsGap(tail, "");
    } else {
      var run, rest := pieces[0].run, Pieced(pieces[1..], tail);
      VersionKeySkipsGap(pieces[0].gap, run + rest);
      assert rest == "" || !IsDigit(rest[0]) by {
        RestStartsWithoutDigit(pieces, tail);
      }
      VersionKeyStep(run, rest);
      TailPieces(pieces);
      VersionKeyOfPieces(pieces[1..], tail);
    }
  }

  lemma TailPieces(pieces: seq<Piece>)
    requires ArePieces(pieces) && pieces != []
    ensures ArePieces(pieces[1..]) && RunValues(pieces) == [Value(pieces[0].run)] + RunValues(pieces[1..])
  {
  }

  lemma RestStartsWithoutDigit(pieces: seq<Piece>, tail: string)
    requires ArePieces(pieces) && NoDigits(tail) && pieces != []
    ensures
      var rest := Pieced(pieces[1..], tail);
      rest == "" || !IsDigit(rest[0])
  {
    if |pieces| > 1 {
      assert pieces[1].gap[0] in pieces[1].gap;
    } else if tail != "" {
      assert tail[0] in tail;
    }
  }

  function Dotted(parts: seq<nat>): string {
    if parts == [] then ""
    else if |parts| == 1 then Digits(parts[0])
    else Digits(parts[0]) + "." + Dotted(parts[1..])
  }

  lemma {:induction false} LeadingDigitsOf(d: string, rest: string)
    requires forall c :: c in d ==> IsDigit(c)
    requires rest == "" || !IsDigit(rest[0])
    ensures LeadingDigits(d + rest) == d
  {
    if d == "" {
      assert d + rest == rest;
    } else {
      assert d[0] in d && (d + rest)[1..] == d[1..] + rest;
      LeadingDigitsOf(d[1..], rest);
    }
  }

  /** A dotted version sorts by its numbers, whatever their widths. */
  lemma {:induction false} VersionKeyOfDotted(parts: seq<nat>)
    ensures VersionKey(Dotted(parts)) == parts
  {
    if parts != [] {
      var d := Digits(parts[0]);
      var rest := if |parts| == 1 then "" else "." + Dotted(parts[1..]);
      assert Dotted(parts) == d + rest;
      DigitsRoundTrip(parts[0]);
      DigitsAreDigits(parts[0]);
      VersionKeyStep(d, rest);
      assert parts == [parts[0]] + parts[1..];
      if |parts| > 1 {
        VersionKeyOfDotted(parts[1..]);
        VersionKeySkipsGap(".", Dotted(parts[1..]));
      }
    }
  }

  lemma VersionKeyStep(run: string, rest: string)
    requires run != "" && forall c :: c in run ==> IsDigit(c)
    requires rest == "" || !IsDigit(rest[0])
    ensures VersionKey(run + rest) == [Value(run)] + VersionKey(rest)
  {
    LeadingDigitsOf(run, rest);
    assert (run + rest)[|run|..] == rest;
  }

  /** `a` and `b` agree before `n`, where `a` ends or has the smaller number. */
  predicate DiffersAt(a: seq<nat>, b: seq<nat>, n: nat) {
    n <= |a| && n < |b| && a[..n] == b[..n] && (n == |a| || a[n] < b[n])
  }

  lemma DiffersInTail(a: seq<nat>, b: seq<nat>, n: nat)
    requires a != [] && b != []
    ensures DiffersAt(a, b, n + 1) <==> a[0] == b[0] && DiffersAt(a[1..], b[1..], n)
  {
    if n + 1 <= |a| && n + 1 < |b| {
      assert a[..n + 1] == [a[0]] + a[1..][..n] && b[..n + 1] == [b[0]] + b[1..][..n];
      if a[..n + 1] == b[..n + 1] {
        assert a[..n + 1][0] == b[..n + 1][0];
        assert a[1..][..n] == a[..n + 1][1..] && b[1..][..n] == b[..n + 1][1..];
      }
    }
  }

  /** Tuple order is lexicographic: the first difference decides, and a proper prefix comes first. */
  lemma {:induction false} LessIsLexicographic(a: seq<nat>, b: seq<nat>)
    ensures Less(a, b) <==> exists n: nat :: DiffersAt(a, b, n)
  {
    if a == [] || b == [] {
      assert b != [] ==> DiffersAt(a, b, 0);
    } else {
      LessIsLexicographic(a[1..], b[1..]);
      assert a[0] < b[0] <==> DiffersAt(a, b, 0);
      if n: nat :| DiffersAt(a[1..], b[1..], n) {
        DiffersInTail(a, b, n);
      }
      if n: nat :| DiffersAt(a, b, n) && n > 0 {
        DiffersInTail(a, b, n - 1);
      }
    }
  }

  lemma {:induction false} LessIsTotal(a: seq<nat>, b: seq<nat>)
    ensures !Less(a, a)
    ensures Less(a, b) ==> !Less(b, a)
    ensures a != b ==> Less(a, b) || Less(b, a)
  {
    if a != [] {
      LessIsTotal(a[1..], if b == [] then [] else b[1..]);
      if b != [] && a[0] == b[0] && a[1..] == b[1..] {
        assert a == [a[0]] + a[1..] && b == [b[0]] + b[1..];
      }
    }
  }

  lemma {:induction false} LessIsTransitive(a: seq<nat>, b: seq<nat>, c: seq<nat>)
    requires Less(a, b) && Less(b, c)
    ensures Less(a, c)
  {
    if a != [] && a[0] == b[0] == c[0] {
      LessIsTransitive(a[1..], b[1..], c[1..]);
    }
  }

  // ---------------------------------------------------------------- ordering

  function KeyAt(keys: seq<seq<nat>>, i: nat): seq<nat> {
    if i < |keys| then keys[i] else []
  }

  /** Newer versions first; equal keys in stored order. */
  predicate Before(keys: seq<seq<nat>>, i: nat, j: nat) {
    Less(KeyAt(keys, j), KeyAt(keys, i)) || (KeyAt(keys, i) == KeyAt(keys, j) && i < j)
  }

  lemma BeforeIsTransitive(keys: seq<seq<nat>>, i: nat, j: nat, k: nat)
    requires Before(keys, i, j) && Before(keys, j, k)
    ensures Before(keys, i, k)
  {
    if Less(KeyAt(keys, j), KeyAt(keys, i)) && Less(KeyAt(keys, k), KeyAt(keys, j)) {
      LessIsTransitive(KeyAt(keys, k), KeyAt(keys, j), KeyAt(keys, i));
    }
  }

  ghost predicate InOrder(keys: seq<seq<nat>>, order: seq<nat>) {
    forall a, b :: 0 <= a < b < |order| ==> Before(keys, order[a], order[b])
  }

  /** A stable descending insertion of an index larger than all before it. */
  function Insert(keys: seq<seq<nat>>, order: seq<nat>, i: nat): seq<nat> {
    if order == [] then [i]
    else if Less(KeyAt(keys, order[0]), KeyAt(keys, i)) then [i] + order
    else [order[0]] + Insert(keys, order[1..], i)
  }

  /** Python's sorted(..., reverse=True) over the first n releases, as indices. */
  function Sorted(keys: seq<seq<nat>>, n: nat): seq<nat> {
    if n == 0 then [] else Insert(keys, Sorted(keys, n - 1), n - 1)
  }

  lemma InOrderCons(keys: seq<seq<nat>>, head: nat, rest: seq<nat>)
    requires InOrder(keys, rest)
    requires forall b :: 0 <= b < |rest| ==> Before(keys, head, rest[b])
    ensures InOrder(keys, [head] + rest)
  {
    var all := [head] + rest;
    assert forall b :: 1 <= b < |all| ==> all[b] == rest[b - 1];
  }

  lemma {:induction false} InsertMembers(keys: seq<seq<nat>>, order: seq<nat>, i: nat, n: nat)
    ensures n in Insert(keys, order, i) <==> n == i || n in order
  {
    if order != [] && !Less(KeyAt(keys, order[0]), KeyAt(keys, i)) {
      InsertMembers(keys, order[1..], i, n);
      assert order == [order[0]] + order[1..];
    }
  }

  lemma {:induction false} InsertKeepsOrder(keys: seq<seq<nat>>, order: seq<nat>, i: nat)
    requires InOrder(keys, order) && forall a :: 0 <= a < |order| ==> order[a] < i
    ensures InOrder(keys, Insert(keys, order, i))
  {
    if order != [] {
      var head, tail := order[0], order[1..];
      assert forall a :: 0 <= a < |tail| ==> tail[a] == order[a + 1];
      if Less(KeyAt(keys, head), KeyAt(keys, i)) {
        forall b | 0 <= b < |order| ensures Before(keys, i, order[b]) {
          if b > 0 {
            BeforeIsTransitive(keys, i, head, order[b]);
          }
        }
        InOrderCons(keys, i, order);
      } else {
        InsertKeepsOrder(keys, tail, i);
        InsertBehind(keys, head, tail, i);
        InOrderCons(keys, head, Insert(keys, tail, i));
      }
    }
  }

  lemma InsertBehind(keys: seq<seq<nat>>, head: nat, tail: seq<nat>, i: nat)
    requires head < i && !Less(KeyAt(keys, head), KeyAt(keys, i))
    requires forall a :: 0 <= a < |tail| ==> Before(keys, head, tail[a])
    ensures forall b :: 0 <= b < |Insert(keys, tail, i)| ==> Before(keys, head, Insert(keys, tail, i)[b])
  {
    var rest := Insert(keys, tail, i);
    LessIsTotal(KeyAt(keys, head), KeyAt(keys, i));
    forall b | 0 <= b < |rest| ensures Before(keys, head, rest[b]) {
      InsertMembers(keys, tail, i, rest[b]);
    }
  }

  lemma {:induction false} SortedHoldsAll(keys: seq<seq<nat>>, n: nat, i: nat)
    ensures i in Sorted(keys, n) <==> i < n
  {
    if n > 0 {
      SortedHoldsAll(keys, n - 1, i);
      InsertMembers(keys, Sorted(keys, n - 1), n - 1, i);
    }
  }

  lemma {:induction false} SortedIsInOrder(keys: seq<seq<nat>>, n: nat)
    ensures InOrder(keys, Sorted(keys, n))
  {
    if n > 0 {
      SortedIsInOrder(keys, n - 1);
      var sofar := Sorted(keys, n - 1);
      forall a | 0 <= a < |sofar| ensures sofar[a] < n - 1 {
        SortedHoldsAll(keys, n - 1, sofar[a]);
      }
      InsertKeepsOrder(keys, sofar, n - 1);
    }
  }

  // ----------------------------------------------------------------- serving

  datatype StoredDownload = StoredDownload(triple: Triple, file: Download)

  datatype StoredRelease = StoredRelease(version: string, row: Release, downloads: seq<StoredDownload>)

  /** A release as it is served, with its position among the stored ones. */
  datatype Served = Served(index: nat, version: string, row: Release, downloads: seq<StoredDownload>)

  predicate Offerable(d: Download, mirrorOnly: bool) {
    (mirrorOnly ==> d.url.Mirrored?) && (d.size.Some? ==> d.size.value >= MIN_DOWNLOAD_BYTES)
  }

  function OfferableOf(ds: seq<StoredDownload>, mirrorOnly: bool): seq<StoredDownload> {
    if ds == [] then []
    else
      var last := ds[|ds| - 1];
      OfferableOf(ds[..|ds| - 1], mirrorOnly) + if Offerable(last.file, mirrorOnly) then [last] else []
  }

  predicate Withdrawn(r: StoredRelease, mirrorOnly: bool) {
    r.downloads != [] && forall i :: 0 <= i < |r.downloads| ==> !Offerable(r.downloads[i].file, mirrorOnly)
  }

  lemma {:induction false} NothingOfferable(ds: seq<StoredDownload>, mirrorOnly: bool)
    ensures OfferableOf(ds, mirrorOnly) == [] <==> forall i :: 0 <= i < |ds| ==> !Offerable(ds[i].file, mirrorOnly)
  {
    if ds != [] {
      var init := ds[..|ds| - 1];
      NothingOfferable(init, mirrorOnly);
      assert forall i :: 0 <= i < |init| ==> init[i] == ds[i];
    }
  }

  /** Everything is served but stable-channel pre-releases and wholly withdrawn versions. */
  predicate IsServed(r: StoredRelease, mirrorOnly: bool, isPrerelease: string -> bool) {
    !(r.row.channel == "stable" && isPrerelease(r.version)) && !Withdrawn(r, mirrorOnly)
  }

  function KeysOf(rs: seq<StoredRelease>): seq<seq<nat>> {
    seq(|rs|, i requires 0 <= i < |rs| => VersionKey(rs[i].version))
  }

  predicate ServesAt(rs: seq<StoredRelease>, mirrorOnly: bool, isPrerelease: string -> bool, i: nat) {
    i < |rs| && IsServed(rs[i], mirrorOnly, isPrerelease)
  }

  /** The positions of the served releases, in the given order. */
  function Picked(rs: seq<StoredRelease>, order: seq<nat>, mirrorOnly: bool,
                  isPrerelease: string -> bool): (r: seq<nat>)
    ensures forall a :: 0 <= a < |r| ==> r[a] < |rs|
  {
    if order == [] then []
    else
      Picked(rs, order[..|order| - 1], mirrorOnly, isPrerelease) +
      if ServesAt(rs, mirrorOnly, isPrerelease, order[|order| - 1]) then [order[|order| - 1]] else []
  }

  lemma {:induction false} PickedMembers(rs: seq<StoredRelease>, order: seq<nat>, mirrorOnly: bool,
                                         isPrerelease: string -> bool, i: nat)
    ensures i in Picked(rs, order, mirrorOnly, isPrerelease) <==>
            i in order && ServesAt(rs, mirrorOnly, isPrerelease, i)
  {
    if order != [] {
      PickedMembers(rs, order[..|order| - 1], mirrorOnly, isPrerelease, i);
      assert order == order[..|order| - 1] + [order[|order| - 1]];
    }
  }

  lemma InOrderSnoc(keys: seq<seq<nat>>, init: seq<nat>, last: nat)
    requires InOrder(keys, init) && forall n :: n in init ==> Before(keys, n, last)
    ensures InOrder(keys, init + [last])
  {
    assert forall a :: 0 <= a < |init| ==> init[a] in init;
  }

  lemma {:induction false} PickedInOrder(keys: seq<seq<nat>>, rs: seq<StoredRelease>, order: seq<nat>,
                                         mirrorOnly: bool, isPrerelease: string -> bool)
    requires InOrder(keys, order)
    ensures InOrder(keys, Picked(rs, order, mirrorOnly, isPrerelease))
  {
    if order != [] {
      var init, last := order[..|order| - 1], order[|order| - 1];
      PickedInOrder(keys, rs, init, mirrorOnly, isPrerelease);
      forall n | n in Picked(rs, init, mirrorOnly, isPrerelease) ensures Before(keys, n, last) {
        PickedMembers(rs, init, mirrorOnly, isPrerelease, n);
      }
      InOrderSnoc(keys, Picked(rs, init, mirrorOnly, isPrerelease), last);
    }
  }

  function Show(r: StoredRelease, i: nat, mirrorOnly: bool): Served {
    Served(i, r.version, r.row, OfferableOf(r.downloads, mirrorOnly))
  }

  /** The document for the picked positions. */
  function Shown(rs: seq<StoredRelease>, picked: seq<nat>, mirrorOnly: bool): seq<Served>
    requires forall a :: 0 <= a < |picked| ==> picked[a] < |rs|
  {
    seq(|picked|, a requires 0 <= a < |picked| => Show(rs[picked[a]], picked[a], mirrorOnly))
  }

  // ------------------------------------------------- what is to be served

  /** A file the client may be pointed at: on the mirror where only mirrors count, and not implausibly small. */
  predicate MayBeServed(d: Download, mirrorOnly: bool) {
    (mirrorOnly ==> d.url.Mirrored?) && (d.size.Some? ==> d.size.value >= 100_000)
  }

  /** `out` is exactly the part of `ds` that may be served, in stored order; `at` are its positions. */
  ghost predicate IsSelection(ds: seq<StoredDownload>, out: seq<StoredDownload>, mirrorOnly: bool, at: seq<nat>) {
    && |at| == |out| && (forall i :: 0 <= i < |at| ==> at[i] < |ds| && out[i] == ds[at[i]])
    && (forall i, j :: 0 <= i < j < |at| ==> at[i] < at[j])
    && (forall n: nat :: n < |ds| ==> (n in at <==> MayBeServed(ds[n].file, mirrorOnly)))
  }

  lemma {:induction false} OfferableIsSelection(ds: seq<StoredDownload>, mirrorOnly: bool) returns (at: seq<nat>)
    ensures IsSelection(ds, OfferableOf(ds, mirrorOnly), mirrorOnly, at)
  {
    at := [];
    if ds != [] {
      var init, last := ds[..|ds| - 1], ds[|ds| - 1];
      var before := OfferableIsSelection(init, mirrorOnly);
      at := before + if Offerable(last.file, mirrorOnly) then [|init|] else [];
      assert ds == init + [last];
      SelectionSnoc(init, OfferableOf(init, mirrorOnly), mirrorOnly, before, last);
    }
  }

  lemma SelectionSnoc(ds: seq<StoredDownload>, out: seq<StoredDownload>, mirrorOnly: bool, at: seq<nat>,
                      d: StoredDownload)
    requires IsSelection(ds, out, mirrorOnly, at)
    ensures
      var serve := MayBeServed(d.file, mirrorOnly);
      IsSelection(ds + [d], out + (if serve then [d] else []), mirrorOnly, at + if serve then [|ds|] else [])
  {
    assert forall i :: 0 <= i < |at| ==> at[i] in at && at[i] < |ds|;
    forall n: nat | n < |ds| + 1
      ensures n in at + (if MayBeServed(d.file, mirrorOnly) then [|ds|] else []) <==>
              MayBeServed((ds + [d])[n].file, mirrorOnly)
    {
    }
  }

  /** So a download is listed if and only if it is stored and may be served. */
  lemma SelectionMembers(ds: seq<StoredDownload>, out: seq<StoredDownload>, mirrorOnly: bool, at: seq<nat>,
                         d: StoredDownload)
    requires IsSelection(ds, out, mirrorOnly, at)
    ensures d in out <==> d in ds && MayBeServed(d.file, mirrorOnly)
  {
    if d in out {
      var i :| 0 <= i < |out| && out[i] == d;
      assert at[i] in at;
    }
    if d in ds && MayBeServed(d.file, mirrorOnly) {
      var n :| 0 <= n < |ds| && ds[n] == d;
      assert n in at;
    }
  }

  /** A stable-channel pre-release is not served, nor a version all of whose downloads were withdrawn. */
  ghost predicate IsToBeServed(r: StoredRelease, mirrorOnly: bool, isPrerelease: string -> bool) {
    && !(r.row.channel == "stable" && isPrerelease(r.version))
    && (r.downloads == [] || exists d :: d in r.downloads && MayBeServed(d.file, mirrorOnly))
  }

  /** The served release is the stored one at its index, with those downloads that may be served. */
  ghost predicate IsShownFrom(rs: seq<StoredRelease>, r: Served, mirrorOnly: bool) {
    && r.index < |rs| && r.version == rs[r.index].version && r.row == rs[r.index].row
    && exists at :: IsSelection(rs[r.index].downloads, r.downloads, mirrorOnly, at)
  }

  ghost predicate Holds(doc: seq<Served>, i: nat) {
    exists r :: r in doc && r.index == i
  }

  /**
   The served list is sorted by numeric version, ties in stored order; it holds
   exactly the releases that are to be served, each with exactly the downloads that
   may be served.
   */
  ghost predicate IsDocument(rs: seq<StoredRelease>, mirrorOnly: bool, isPrerelease: string -> bool, doc: seq<Served>) {
    && (forall r :: r in doc ==> IsShownFrom(rs, r, mirrorOnly))
    && (forall a, b :: 0 <= a < b < |doc| ==> Before(KeysOf(rs), doc[a].index, doc[b].index))
    && (forall i: nat :: i < |rs| ==> (IsToBeServed(rs[i], mirrorOnly, isPrerelease) <==> Holds(doc, i)))
  }

  lemma IsServedExactly(r: StoredRelease, mirrorOnly: bool, isPrerelease: string -> bool)
    ensures IsServed(r, mirrorOnly, isPrerelease) <==> IsToBeServed(r, mirrorOnly, isPrerelease)
  {
    if i :| 0 <= i < |r.downloads| && Offerable(r.downloads[i].file, mirrorOnly) {
      assert r.downloads[i] in r.downloads;
    }
  }

  lemma PickedIsRight(rs: seq<StoredRelease>, mirrorOnly: bool, isPrerelease: string -> bool, order: seq<nat>,
                      picked: seq<nat>)
    requires order == Sorted(KeysOf(rs), |rs|) && picked == Picked(rs, order, mirrorOnly, isPrerelease)
    ensures InOrder(KeysOf(rs), picked)
    ensures forall i: nat :: i in picked <==> ServesAt(rs, mirrorOnly, isPrerelease, i)
  {
    SortedIsInOrder(KeysOf(rs), |rs|);
    PickedInOrder(KeysOf(rs), rs, order, mirrorOnly, isPrerelease);
    forall i: nat ensures i in picked <==> ServesAt(rs, mirrorOnly, isPrerelease, i) {
      SortedHoldsAll(KeysOf(rs), |rs|, i);
      PickedMembers(rs, order, mirrorOnly, isPrerelease, i);
    }
  }

  lemma DocumentIsRight(rs: seq<StoredRelease>, mirrorOnly: bool, isPrerelease: string -> bool, picked: seq<nat>)
    requires forall a :: 0 <= a < |picked| ==> picked[a] < |rs|
    requires InOrder(KeysOf(rs), picked)
    requires forall i: nat :: i in picked <==> ServesAt(rs, mirrorOnly, isPrerelease, i)
    ensures IsDocument(rs, mirrorOnly, isPrerelease, Shown(rs, picked, mirrorOnly))
  {
    var doc := Shown(rs, picked, mirrorOnly);
    forall r | r in doc ensures IsShownFrom(rs, r, mirrorOnly) {
      var at := OfferableIsSelection(rs[r.index].downloads, mirrorOnly);
    }
    forall i: nat | i < |rs| ensures IsToBeServed(rs[i], mirrorOnly, isPrerelease) <==> Holds(doc, i) {
      IsServedExactly(rs[i], mirrorOnly, isPrerelease);
      ShownHolds(rs, picked, mirrorOnly, i);
    }
  }

  lemma ShownHolds(rs: seq<StoredRelease>, picked: seq<nat>, mirrorOnly: bool, i: nat)
    requires forall a :: 0 <= a < |picked| ==> picked[a] < |rs|
    ensures i in picked <==> Holds(Shown(rs, picked, mirrorOnly), i)
  {
    var doc := Shown(rs, picked, mirrorOnly);
    if i in picked {
      var a :| 0 <= a < |picked| && picked[a] == i;
      assert doc[a].index == i && doc[a] in doc;
    }
    if r :| r in doc && r.index == i {
      var a :| 0 <= a < |doc| && doc[a] == r;
      assert picked[a] == i;
    }
  }

  /** Whether a release is served, and with which downloads. */
  method Filter(r: StoredRelease, mirrorOnly: bool, isPrerelease: string -> bool)
    returns (keep: bool, offerable: seq<StoredDownload>)
    ensures keep <==> IsServed(r, mirrorOnly, isPrerelease)
    ensures offerable == OfferableOf(r.downloads, mirrorOnly)
  {
    offerable := OfferableOf(r.downloads, mirrorOnly);
    NothingOfferable(r.downloads, mirrorOnly);
    keep := !(r.row.channel == "stable" && isPrerelease(r.version)) && !(r.downloads != [] && offerable == []);
  }

  /** The loop over the sorted releases. */
  method Collect(rs: seq<StoredRelease>, order: seq<nat>, mirrorOnly: bool, isPrerelease: string -> bool)
    returns (doc: seq<Served>)
    requires forall a :: 0 <= a < |order| ==> order[a] < |rs|
    ensures doc == Shown(rs, Picked(rs, order, mirrorOnly, isPrerelease), mirrorOnly)
  {
    doc := [];
    var n := 0;
    while n < |order|
      invariant 0 <= n <= |order|
      invariant doc == Shown(rs, Picked(rs, order[..n], mirrorOnly, isPrerelease), mirrorOnly)
    {
      var i := order[n];
      PickedStep(rs, order, n, mirrorOnly, isPrerelease);
      var keep, offerable := Filter(rs[i], mirrorOnly, isPrerelease);
      if keep {
        doc := doc + [Served(i, rs[i].version, rs[i].row, offerable)];
      }
      n := n + 1;
    }
    assert order[..|order|] == order;
  }

  datatype Info = Info(displayName: string, category: string, description: string,
                       homepage: Option<string>, license: Option<string>)

  datatype AppDoc = AppDoc(name: string, info: Info, releases: seq<Served>)

  /** Empty texts are served as the id, "other" and nothing. */
  function ShownInfo(id: string, i: Info): Info {
    i.(displayName := if i.displayName == "" then id else i.displayName,
       category := if i.category == "" then "other" else i.category)
  }

  /** The served document of one app, from its rows as the database lists them. */
  function Schema(id: string, info: Info, rs: seq<StoredRelease>, isPrerelease: string -> bool): AppDoc {
    var mirrorOnly := id in MIRROR_ONLY_APPS;
    var picked := Picked(rs, Sorted(KeysOf(rs), |rs|), mirrorOnly, isPrerelease);
    AppDoc(id, ShownInfo(id, info), Shown(rs, picked, mirrorOnly))
  }

  /** The app's own fields: an unnamed app is shown by its id, an unclassified one under "other". */
  ghost predicate ShowsInfo(doc: AppDoc, id: string, info: Info) {
    && doc.name == id
    && (info.displayName != "" ==> doc.info.displayName == info.displayName)
    && (info.displayName == "" ==> doc.info.displayName == id)
    && (info.category != "" ==> doc.info.category == info.category)
    && (info.category == "" ==> doc.info.category == "other")
    && doc.info.description == info.description
    && doc.info.homepage == info.homepage && doc.info.license == info.license
  }

  lemma SchemaIsRight(id: string, info: Info, rs: seq<StoredRelease>, isPrerelease: string -> bool)
    ensures
      var doc := Schema(id, info, rs, isPrerelease);
      ShowsInfo(doc, id, info) && IsDocument(rs, id == "apache" || id == "mysql", isPrerelease, doc.releases)
  {
    var mirrorOnly, order := id in MIRROR_ONLY_APPS, Sorted(KeysOf(rs), |rs|);
    var picked := Picked(rs, order, mirrorOnly, isPrerelease);
    PickedIsRight(rs, mirrorOnly, isPrerelease, order, picked);
    DocumentIsRight(rs, mirrorOnly, isPrerelease, picked);
  }

  method AppToSchema(id: string, info: Info, rs: seq<StoredRelease>, isPrerelease: string -> bool) returns (doc: AppDoc)
    ensures ShowsInfo(doc, id, info) && IsDocument(rs, id == "apache" || id == "mysql", isPrerelease, doc.releases)
    ensures doc == Schema(id, info, rs, isPrerelease)
  {
    var order := Sorted(KeysOf(rs), |rs|);
    forall a | 0 <= a < |order| ensures order[a] < |rs| {
      SortedHoldsAll(KeysOf(rs), |rs|, order[a]);
    }
    var releases := Collect(rs, order, id in MIRROR_ONLY_APPS, isPrerelease);
    var displayName := if info.displayName == "" then id else info.displayName;
    var category := if info.category == "" then "other" else info.category;
    doc := AppDoc(id, Info(displayName, category, info.description, info.homepage, info.license), releases);
    SchemaIsRight(id, info, rs, isPrerelease);
  }

  // ------------------------------------------------------ from the tables

  /** The database lists every release of an app once, with its downloads. */
  ghost predicate Lists(a: App, rs: seq<StoredRelease>) {
    && (forall i :: 0 <= i < |rs| ==> rs[i].version in a.releases && rs[i].row == a.releases[rs[i].version])
    && (forall v :: v in a.releases ==> exists i :: 0 <= i < |rs| && rs[i].version == v)
    && (forall i, j :: 0 <= i < j < |rs| ==> rs[i].version != rs[j].version)
    && (forall i, d :: 0 <= i < |rs| ==>
          (d in rs[i].downloads <==>
             var k := Key(rs[i].version, d.triple);
             k in a.downloads && a.downloads[k] == d.file))
  }

  /** The version is stored, no stable-channel pre-release, and has an offerable download or none at all. */
  ghost predicate IsOffered(a: App, v: string, mirrorOnly: bool, isPrerelease: string -> bool) {
    && v in a.releases && !(a.releases[v].channel == "stable" && isPrerelease(v))
    && ((forall t :: Key(v, t) !in a.downloads) ||
        (exists t :: Key(v, t) in a.downloads && MayBeServed(a.downloads[Key(v, t)], mirrorOnly)))
  }

  lemma IsOfferedExactly(a: App, rs: seq<StoredRelease>, i: nat, mirrorOnly: bool, isPrerelease: string -> bool)
    requires Lists(a, rs) && i < |rs|
    ensures IsToBeServed(rs[i], mirrorOnly, isPrerelease) <==> IsOffered(a, rs[i].version, mirrorOnly, isPrerelease)
  {
    var v, ds := rs[i].version, rs[i].downloads;
    forall d | d in ds ensures Key(v, d.triple) in a.downloads && a.downloads[Key(v, d.triple)] == d.file {
    }
    forall t | Key(v, t) in a.downloads ensures StoredDownload(t, a.downloads[Key(v, t)]) in ds {
    }
    if ds != [] {
      assert ds[0] in ds;
    }
  }

  /** A version is served if and only if the tables offer it. */
  lemma VersionIsServedExactly(a: App, rs: seq<StoredRelease>, mirrorOnly: bool, isPrerelease: string -> bool,
                               doc: seq<Served>, v: string)
    requires Lists(a, rs) && IsDocument(rs, mirrorOnly, isPrerelease, doc)
    ensures (exists r :: r in doc && r.version == v) <==> IsOffered(a, v, mirrorOnly, isPrerelease)
  {
    if r :| r in doc && r.version == v {
      assert IsShownFrom(rs, r, mirrorOnly) && Holds(doc, r.index);
      IsOfferedExactly(a, rs, r.index, mirrorOnly, isPrerelease);
    }
    if IsOffered(a, v, mirrorOnly, isPrerelease) {
      var i :| 0 <= i < |rs| && rs[i].version == v;
      IsOfferedExactly(a, rs, i, mirrorOnly, isPrerelease);
      assert Holds(doc, i);
      var r :| r in doc && r.index == i;
      assert IsShownFrom(rs, r, mirrorOnly);
    }
  }

  /** A served release is a stored one, with its columns. */
  lemma ServedReleaseIsStored(a: App, rs: seq<StoredRelease>, mirrorOnly: bool, isPrerelease: string -> bool,
                              doc: seq<Served>, r: Served)
    requires Lists(a, rs) && IsDocument(rs, mirrorOnly, isPrerelease, doc) && r in doc
    ensures r.version in a.releases && r.row == a.releases[r.version]
  {
    assert IsShownFrom(rs, r, mirrorOnly);
  }

  /** And a served release lists a download if and only if the tables hold it for its version and it may be served. */
  lemma DownloadIsServedExactly(a: App, rs: seq<StoredRelease>, mirrorOnly: bool, isPrerelease: string -> bool,
                                doc: seq<Served>, r: Served, d: StoredDownload)
    requires Lists(a, rs) && IsDocument(rs, mirrorOnly, isPrerelease, doc) && r in doc
    ensures
      var k := Key(r.version, d.triple);
      d in r.downloads <==> k in a.downloads && a.downloads[k] == d.file && MayBeServed(d.file, mirrorOnly)
  {
    assert IsShownFrom(rs, r, mirrorOnly);
    var at :| IsSelection(rs[r.index].downloads, r.downloads, mirrorOnly, at);
    SelectionMembers(rs[r.index].downloads, r.downloads, mirrorOnly, at, d);
  }

  lemma PickedStep(rs: seq<StoredRelease>, order: seq<nat>, n: nat, mirrorOnly: bool, isPrerelease: string -> bool)
    requires n < |order|
    ensures
      Picked(rs, order[..n + 1], mirrorOnly, isPrerelease) ==
      Picked(rs, order[..n], mirrorOnly, isPrerelease) +
      if ServesAt(rs, mirrorOnly, isPrerelease, order[n]) then [order[n]] else []
  {
    assert order[..n + 1][..n] == order[..n];
  }

  /** So the first one served is a newest of those kept. */
  lemma FirstServedIsNewest(rs: seq<StoredRelease>, mirrorOnly: bool, isPrerelease: string -> bool, doc: seq<Served>,
                            i: nat)
    requires IsDocument(rs, mirrorOnly, isPrerelease, doc) && i < |rs| && IsToBeServed(rs[i], mirrorOnly, isPrerelease)
    ensures doc != [] && !Less(VersionKey(doc[0].version), VersionKey(rs[i].version))
  {
    assert Holds(doc, i);
    var r :| r in doc && r.index == i;
    var b :| 0 <= b < |doc| && doc[b] == r;
    assert IsShownFrom(rs, doc[0], mirrorOnly);
    LessIsTotal(VersionKey(doc[0].version), VersionKey(rs[i].version));
    if b > 0 {
      assert Before(KeysOf(rs), doc[0].index, doc[b].index);
    }
  }
}
