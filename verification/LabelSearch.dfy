/**
 Searching snapshots by label (app/snapshots.py): the user's text is escaped
 into a LIKE pattern, and the total is sometimes read off the page.

 LIKE is that of section 8.5 of ISO/IEC 9075:1992 with escape character `\`.
 Characters are compared by a relation the database chooses, which covers
 case-sensitive and case-insensitive collations alike.
 */
module LabelSearch {
  import opened Common

  // --------------------------------------------------------------- escaping

  function Replace(s: string, c: char, with: string): string {
    if s == "" then "" else (if s[0] == c then with else [s[0]]) + Replace(s[1..], c, with)
  }

  /** The three replacements the service chains. */
  function Safe(u: string): string {
    Replace(Replace(Replace(u, '\\', "\\\\"), '%', "\\%"), '_', "\\_")
  }

  function EscapeChar(c: char): string {
    if c in {'\\', '%', '_'} then ['\\', c] else [c]
  }

  function Escape(u: string): string {
    if u == "" then "" else EscapeChar(u[0]) + Escape(u[1..])
  }

  lemma {:induction false} ReplaceAppend(s: string, t: string, c: char, with: string)
    ensures Replace(s + t, c, with) == Replace(s, c, with) + Replace(t, c, with)
  {
    if s == "" {
      assert s + t == t;
    } else {
      assert (s + t)[1..] == s[1..] + t;
      ReplaceAppend(s[1..], t, c, with);
    }
  }

  lemma ReplaceChar(x: char, c: char, with: string)
    ensures Replace([x], c, with) == if x == c then with else [x]
  {
    assert [x][1..] == "";
  }

  /** Backslash first, so that the later replacements' own backslashes are not doubled. */
  lemma {:induction false} ChainedReplacementsEscape(u: string)
    ensures Safe(u) == Escape(u)
  {
    if u != "" {
      var x, rest := u[0], u[1..];
      assert u == [x] + rest;
      ReplaceAppend([x], rest, '\\', "\\\\");
      var a, b := Replace([x], '\\', "\\\\"), Replace(rest, '\\', "\\\\");
      ReplaceAppend(a, b, '%', "\\%");
      ReplaceAppend(Replace(a, '%', "\\%"), Replace(b, '%', "\\%"), '_', "\\_");
      SafeChar(x);
      ChainedReplacementsEscape(rest);
    }
  }

  lemma SafeChar(x: char)
    ensures Safe([x]) == EscapeChar(x)
  {
    ReplaceChar(x, '\\', "\\\\");
    ReplaceChar(x, '%', "\\%");
    ReplaceChar(x, '_', "\\_");
    if x == '\\' {
      assert "\\\\" == ['\\'] + ['\\'];
      ReplaceAppend(['\\'], ['\\'], '%', "\\%");
      ReplaceChar('\\', '%', "\\%");
      ReplaceAppend(['\\'], ['\\'], '_', "\\_");
      ReplaceChar('\\', '_', "\\_");
    } else if x == '%' {
      assert "\\%" == ['\\'] + ['%'];
      ReplaceAppend(['\\'], ['%'], '_', "\\_");
      ReplaceChar('\\', '_', "\\_");
      ReplaceChar('%', '_', "\\_");
    }
  }

  // --------------------------------------------------------------- matching

  datatype Token = Literal(c: char) | AnyChar | AnyText

  /** The tokens of a pattern; None when the escape character escapes nothing it may. */
  function Parse(pattern: string): Option<seq<Token>> {
    if pattern == "" then Some([])
    else if pattern[0] == '\\' then
      if |pattern| == 1 || pattern[1] !in {'\\', '%', '_'} then None
      else Prepend(Literal(pattern[1]), Parse(pattern[2..]))
    else
      var token := if pattern[0] == '%' then AnyText else if pattern[0] == '_' then AnyChar else Literal(pattern[0]);
      Prepend(token, Parse(pattern[1..]))
  }

  function Prepend(t: Token, ts: Option<seq<Token>>): Option<seq<Token>> {
    if ts.Some? then Some([t] + ts.value) else None
  }

  predicate Matches(ts: seq<Token>, text: string, same: (char, char) -> bool)
    decreases |ts| + |text|
  {
    if ts == [] then text == ""
    else
      match ts[0]
      case Literal(c) => text != "" && same(c, text[0]) && Matches(ts[1..], text[1..], same)
      case AnyChar => text != "" && Matches(ts[1..], text[1..], same)
      case AnyText => Matches(ts[1..], text, same) || (text != "" && Matches(ts, text[1..], same))
  }

  predicate Like(text: string, pattern: string, same: (char, char) -> bool) {
    Parse(pattern).Some? && Matches(Parse(pattern).value, text, same)
  }

  predicate OccursAt(text: string, u: string, i: nat, same: (char, char) -> bool) {
    i + |u| <= |text| && forall k :: 0 <= k < |u| ==> same(u[k], text[i + k])
  }

  function Literals(u: string): seq<Token> {
    seq(|u|, i requires 0 <= i < |u| => Literal(u[i]))
  }

  lemma ParseEscapedChar(c: char, tail: string)
    ensures Parse(EscapeChar(c) + tail) == Prepend(Literal(c), Parse(tail))
  {
    var all := EscapeChar(c) + tail;
    assert all[|EscapeChar(c)|..] == tail;
  }

  lemma {:induction false} ParseEscaped(u: string, rest: string)
    ensures Parse(Escape(u) + rest) == if Parse(rest).None? then None else Some(Literals(u) + Parse(rest).value)
  {
    if u == "" {
      assert Escape(u) + rest == rest;
      assert Parse(rest).Some? ==> Literals(u) + Parse(rest).value == Parse(rest).value;
    } else {
      var tail := Escape(u[1..]) + rest;
      assert Escape(u) + rest == EscapeChar(u[0]) + tail;
      ParseEscapedChar(u[0], tail);
      ParseEscaped(u[1..], rest);
      LiteralsStep(u, if Parse(rest).Some? then Parse(rest).value else []);
    }
  }

  lemma LiteralsStep(u: string, ts: seq<Token>)
    requires u != ""
    ensures Literals(u) + ts == [Literal(u[0])] + (Literals(u[1..]) + ts)
  {
    assert Literals(u) == [Literal(u[0])] + Literals(u[1..]);
  }

  lemma ParsePercent()
    ensures Parse("%") == Some([AnyText])
  {
    assert "%"[1..] == "";
    assert Parse("") == Some([]);
    assert [AnyText] + [] == [AnyText];
  }

  lemma {:induction false} LiteralsMatch(u: string, ts: seq<Token>, text: string, same: (char, char) -> bool)
    ensures Matches(Literals(u) + ts, text, same) <==> OccursAt(text, u, 0, same) && Matches(ts, text[|u|..], same)
  {
    if u == "" {
      assert Literals(u) + ts == ts;
      assert text[0..] == text;
    } else {
      var all := Literals(u) + ts;
      assert all[0] == Literal(u[0]);
      assert all[1..] == Literals(u[1..]) + ts;
      if text != "" {
        LiteralsMatch(u[1..], ts, text[1..], same);
        OccursShift(text, u, same);
        if |u| <= |text| {
          assert text[1..][|u[1..]|..] == text[|u|..];
        }
      }
    }
  }

  lemma OccursShift(text: string, u: string, same: (char, char) -> bool)
    requires text != "" && u != ""
    ensures OccursAt(text, u, 0, same) <==> same(u[0], text[0]) && OccursAt(text[1..], u[1..], 0, same)
  {
    if OccursAt(text, u, 0, same) {
      assert forall k :: 0 <= k < |u[1..]| ==> u[1..][k] == u[k + 1] && text[1..][k] == text[k + 1];
    }
    if same(u[0], text[0]) && OccursAt(text[1..], u[1..], 0, same) {
      forall k | 0 <= k < |u| ensures same(u[k], text[0 + k]) {
        if k > 0 {
          assert u[1..][k - 1] == u[k] && text[1..][k - 1] == text[k];
        }
      }
    }
  }

  lemma {:induction false} AnyTextMatchesAll(text: string, same: (char, char) -> bool)
    ensures Matches([AnyText], text, same)
  {
    if text != "" {
      AnyTextMatchesAll(text[1..], same);
    }
  }

  /** A leading % tries every start. */
  lemma {:induction false} AnyTextSearches(u: string, text: string, same: (char, char) -> bool)
    ensures Matches([AnyText] + (Literals(u) + [AnyText]), text, same) <==> exists i: nat :: OccursAt(text, u, i, same)
  {
    var ts := Literals(u) + [AnyText];
    var all := [AnyText] + ts;
    assert all[1..] == ts;
    LiteralsMatch(u, [AnyText], text, same);
    if |u| <= |text| {
      AnyTextMatchesAll(text[|u|..], same);
    }
    if text != "" {
      AnyTextSearches(u, text[1..], same);
      forall i: nat ensures OccursAt(text[1..], u, i, same) <==> OccursAt(text, u, i + 1, same) {
        OccursLater(text, u, i, same);
      }
      if i: nat :| OccursAt(text, u, i, same) && i > 0 {
        assert OccursAt(text[1..], u, i - 1, same);
      }
    }
  }

  lemma OccursLater(text: string, u: string, i: nat, same: (char, char) -> bool)
    requires text != ""
    ensures OccursAt(text[1..], u, i, same) <==> OccursAt(text, u, i + 1, same)
  {
    if i + 1 + |u| <= |text| {
      assert forall n :: 0 <= n < |text| - 1 ==> text[1..][n] == text[n + 1];
    }
  }

  /**
   For every user text and every label, the pattern the service builds is
   well-formed, and the label matches it exactly when it contains the text
   literally.
   */
  lemma PatternFindsLiteralText(u: string, text: string, same: (char, char) -> bool)
    ensures Parse("%" + Safe(u) + "%").Some?
    ensures Like(text, "%" + Safe(u) + "%", same) <==> exists i: nat :: OccursAt(text, u, i, same)
  {
    ChainedReplacementsEscape(u);
    var pattern := "%" + Safe(u) + "%";
    ParseEscaped(u, "%");
    ParsePercent();
    assert pattern[1..] == Escape(u) + "%";
    assert Parse(pattern) == Some([AnyText] + (Literals(u) + [AnyText]));
    AnyTextSearches(u, text, same);
  }

  /** Without escaping, a percent sign would match anything. */
  lemma UnescapedPercentMatchesAnything(text: string, same: (char, char) -> bool)
    ensures Like(text, "%", same)
  {
    ParsePercent();
    AnyTextMatchesAll(text, same);
  }

  /** And an underscore any one character. */
  lemma UnescapedUnderscoreMatchesAnyCharacter(text: string, same: (char, char) -> bool)
    ensures Like(text, "_", same) <==> |text| == 1
  {
    assert "_"[1..] == "" && Parse("") == Some([]);
    assert [AnyChar] + [] == [AnyChar] && [AnyChar][1..] == [];
    assert Parse("_") == Some([AnyChar]);
    if text != "" {
      assert Matches([], text[1..], same) <==> text[1..] == "";
    }
  }

  // ---------------------------------------------------------------- listing

  datatype Row =
    Row(id: nat, device: string, account: Option<nat>, kind: string, labelText: Option<string>, createdAt: Time)

  /** Empty kind or label text means no such filter; a row without a label matches no pattern. */
  datatype Query = Query(device: string, account: nat, kind: string, labelText: string)

  predicate Selects(q: Query, r: Row, same: (char, char) -> bool) {
    && r.device == q.device && r.account == Some(q.account)
    && (q.kind != "" ==> r.kind == q.kind)
    && (q.labelText != "" ==> r.labelText.Some? && Like(r.labelText.value, "%" + Safe(q.labelText) + "%", same))
  }

  function Selected(rows: seq<Row>, q: Query, same: (char, char) -> bool): seq<Row> {
    if rows == [] then []
    else Selected(rows[..|rows| - 1], q, same) + if Selects(q, rows[|rows| - 1], same) then [rows[|rows| - 1]] else []
  }

  /** What the user asks for: the filters, and a label that contains the text literally. */
  ghost predicate Wants(q: Query, r: Row, same: (char, char) -> bool) {
    && r.device == q.device && r.account == Some(q.account)
    && (q.kind != "" ==> r.kind == q.kind)
    && (q.labelText != "" ==>
          r.labelText.Some? && exists i: nat :: OccursAt(r.labelText.value, q.labelText, i, same))
  }

  lemma SelectsExactlyWhatIsWanted(q: Query, r: Row, same: (char, char) -> bool)
    ensures Selects(q, r, same) <==> Wants(q, r, same)
  {
    if r.labelText.Some? {
      PatternFindsLiteralText(q.labelText, r.labelText.value, same);
    }
  }

  /** The rows the user asks for, in table order. */
  ghost function Wanted(rows: seq<Row>, q: Query, same: (char, char) -> bool): seq<Row> {
    if rows == [] then []
    else Wanted(rows[..|rows| - 1], q, same) + if Wants(q, rows[|rows| - 1], same) then [rows[|rows| - 1]] else []
  }

  /** The escaped pattern selects exactly the rows the user asks for. */
  lemma {:induction false} SelectedIsWanted(rows: seq<Row>, q: Query, same: (char, char) -> bool)
    ensures Selected(rows, q, same) == Wanted(rows, q, same)
  {
    if rows != [] {
      SelectedIsWanted(rows[..|rows| - 1], q, same);
      SelectsExactlyWhatIsWanted(q, rows[|rows| - 1], same);
    }
  }

  lemma {:induction false} WantedMembers(rows: seq<Row>, q: Query, same: (char, char) -> bool, r: Row)
    ensures r in Wanted(rows, q, same) <==> r in rows && Wants(q, r, same)
  {
    if rows != [] {
      WantedMembers(rows[..|rows| - 1], q, same, r);
      assert rows == rows[..|rows| - 1] + [rows[|rows| - 1]];
    }
  }

  lemma OrderedIsWanted(rows: seq<Row>, ordered: seq<Row>, q: Query, same: (char, char) -> bool, r: Row)
    requires multiset(ordered) == multiset(Selected(rows, q, same))
    ensures r in ordered <==> r in rows && Wants(q, r, same)
  {
    assert r in ordered <==> r in multiset(ordered);
    SelectedIsWanted(rows, q, same);
    WantedMembers(rows, q, same, r);
  }

  /** What ORDER BY created_at DESC promises. */
  ghost predicate NewestFirst(rows: seq<Row>) {
    forall i, j :: 0 <= i < j < |rows| ==> rows[i].createdAt >= rows[j].createdAt
  }

  function Clamp(n: int, low: int, high: int): int {
    if n < low then low else if n > high then high else n
  }

  /** OFFSET and LIMIT, with the bounds the service puts on them. */
  function PageOf(ordered: seq<Row>, offset: int, limit: int): seq<Row> {
    var from, size := if offset > 0 then offset else 0, Clamp(limit, 1, 200);
    if from >= |ordered| then []
    else ordered[from..if |ordered| - from < size then |ordered| else from + size]
  }

  lemma PageIsASlice(ordered: seq<Row>, offset: int, limit: int)
    requires NewestFirst(ordered)
    ensures
      var page := PageOf(ordered, offset, limit);
      NewestFirst(page) && forall r :: r in page ==> r in ordered
  {
  }

  /**
   The page starts at the offset, or at 0 for a negative one, and takes as many rows as
   there are from there on, but at most the limit, which counts as 1 below and as 200
   above.
   */
  lemma PageIsExact(ordered: seq<Row>, offset: int, limit: int)
    ensures
      var page := PageOf(ordered, offset, limit);
      var from := if offset < 0 then 0 else offset;
      var size := if limit < 1 then 1 else if limit > 200 then 200 else limit;
      && (from >= |ordered| ==> page == [])
      && (from < |ordered| ==> |page| == if |ordered| - from < size then |ordered| - from else size)
      && (forall i :: 0 <= i < |page| ==> from + i < |ordered| && page[i] == ordered[from + i])
  {
  }

  /** SELECT count(*) over the filtered rows. */
  method CountSelected(rows: seq<Row>, q: Query, same: (char, char) -> bool) returns (n: nat)
    ensures n == |Selected(rows, q, same)|
  {
    n := 0;
    var i := 0;
    while i < |rows|
      invariant 0 <= i <= |rows|
      invariant n == |Selected(rows[..i], q, same)|
    {
      assert rows[..i + 1][..i] == rows[..i];
      if Selects(q, rows[i], same) {
        n := n + 1;
      }
      i := i + 1;
    }
    assert rows[..|rows|] == rows;
  }

  /**
   One page, newest first, and the total. `ordered` is the database's ordering of
   the rows that the pattern selects. They are exactly the rows the user asks for,
   labels taken literally, and the total is their number, whether it is read off a
   short first page or counted.
   */
  method ListSnapshots(rows: seq<Row>, ordered: seq<Row>, q: Query, offset: int, limit: int, same: (char, char) -> bool)
    returns (page: seq<Row>, total: nat)
    requires multiset(ordered) == multiset(Selected(rows, q, same)) && NewestFirst(ordered)
    ensures total == |Wanted(rows, q, same)|
    ensures multiset(ordered) == multiset(Wanted(rows, q, same))
    ensures page == PageOf(ordered, offset, limit) && NewestFirst(page)
    ensures forall r :: r in page ==> r in rows && Wants(q, r, same)
  {
    var size := Clamp(limit, 1, 200);
    var from := if offset > 0 then offset else 0;
    page := if from >= |ordered| then [] else ordered[from..if |ordered| - from < size then |ordered| else from + size];
    PageIsASlice(ordered, offset, limit);
    SelectedIsWanted(rows, q, same);
    forall r | r in page ensures r in rows && Wants(q, r, same) {
      OrderedIsWanted(rows, ordered, q, same, r);
    }
    if from == 0 && |page| < size {
      assert |multiset(ordered)| == |multiset(Selected(rows, q, same))|;
      total := |page|;
    } else {
      total := CountSelected(rows, q, same);
    }
  }
}
