/**
 * The table clean-up of the scraper: which links name a team, how a two-level table header
 * becomes one column name, which column holds the player names, which rows and columns of a
 * squad table are kept, which match rows are kept, and how the per-team tables are tagged
 * with the team and stacked.  The browser, the HTML parser and the CSV files are outside
 * the model: a team page is given as the tables the parser found on it.
 */
module Scraping {
  import opened Wrappers
  import opened Seqs
  import opened Text
  import opened Frames

  // ---------------------------------------------------------------------------------------
  // Team links

  /** An anchor of the league page: its `href` attribute when it has one, and its text. */
  datatype Link = Link(href: Option<string>, text: string)

  const SquadsMarker := "/squads/"
  const SeasonMarker := "2024-2025"

  /** The team name a link shows: its text without surrounding whitespace. */
  function LinkName(l: Link): string
  {
    Strip(l.text)
  }

  /** A link to a squad page of the season that shows a name. */
  predicate IsTeamLink(l: Link)
  {
    && l.href.Some?
    && Contains(l.href.value, SquadsMarker)
    && Contains(l.href.value, SeasonMarker)
    && LinkName(l) != ""
  }

  /**
   * The links of the page in order, keeping a team link unless a link already kept shows
   * the same name.
   */
  function TeamLinks(links: seq<Link>): (kept: seq<Link>)
    ensures forall i | 0 <= i < |kept| :: IsTeamLink(kept[i]) && kept[i] in links
    ensures NoDuplicates(Map(kept, LinkName))
  {
    if |links| == 0 then []
    else
      var pre := links[..|links| - 1];
      var init := TeamLinks(pre);
      var l := links[|links| - 1];
      KeptFromPrefix(init, links);
      if IsTeamLink(l) && LinkName(l) !in Map(init, LinkName) then
        KeepLink(init, l, links);
        init + [l]
      else
        init
  }

  lemma KeptFromPrefix(init: seq<Link>, links: seq<Link>)
    requires |links| > 0
    requires forall i | 0 <= i < |init| :: IsTeamLink(init[i]) && init[i] in links[..|links| - 1]
    ensures forall i | 0 <= i < |init| :: IsTeamLink(init[i]) && init[i] in links
  {
    var pre := links[..|links| - 1];
    forall i | 0 <= i < |init|
      ensures init[i] in links
    {
      var m :| 0 <= m < |pre| && pre[m] == init[i];
      assert links[m] == pre[m];
    }
  }

  lemma KeepLink(init: seq<Link>, l: Link, links: seq<Link>)
    requires forall i | 0 <= i < |init| :: IsTeamLink(init[i]) && init[i] in links
    requires NoDuplicates(Map(init, LinkName))
    requires IsTeamLink(l) && l in links && LinkName(l) !in Map(init, LinkName)
    ensures forall i | 0 <= i < |init + [l]| :: IsTeamLink((init + [l])[i]) && (init + [l])[i] in links
    ensures NoDuplicates(Map(init + [l], LinkName))
  {
    MapAppend(init, [l], LinkName);
    NoDuplicatesSnoc(Map(init, LinkName), LinkName(l));
    forall i | 0 <= i < |init + [l]|
      ensures IsTeamLink((init + [l])[i]) && (init + [l])[i] in links
    {
      if i < |init| {
        assert (init + [l])[i] == init[i];
      }
    }
  }

  /** The team names, one per kept link, in page order. */
  function TeamNames(links: seq<Link>): (names: seq<string>)
    ensures NoDuplicates(names)
    ensures forall i | 0 <= i < |names| :: names[i] != ""
  {
    Map(TeamLinks(links), LinkName)
  }

  /**
   * The team names are the names of the team links, each at its first occurrence: no team
   * link is lost, none is kept twice, and the page order is kept.
   */
  lemma {:induction false} TeamNamesFirstOccurrence(links: seq<Link>)
    ensures TeamNames(links) == Distinct(Map(Filter(links, IsTeamLink), LinkName))
  {
    if |links| > 0 {
      var init := links[..|links| - 1];
      var l := links[|links| - 1];
      TeamNamesFirstOccurrence(init);
      var names := Map(Filter(init, IsTeamLink), LinkName);
      TeamLinkNamesSnoc(links);
      TeamNamesSnoc(links);
      if IsTeamLink(l) {
        var x := LinkName(l);
        DistinctSnoc(names, x);
        DistinctMember(names, x);
      } else {
        assert names + [] == names;
      }
    }
  }

  lemma NoDuplicatesSnoc<T>(s: seq<T>, x: T)
    requires NoDuplicates(s) && x !in s
    ensures NoDuplicates(s + [x])
  {
  }

  lemma DistinctMember<T>(s: seq<T>, x: T)
    ensures x in Distinct(s) <==> x in s
  {
    if x in s {
      var i :| 0 <= i < |s| && s[i] == x;
    }
  }

  lemma TeamLinkNamesSnoc(links: seq<Link>)
    requires |links| > 0
    ensures var init := links[..|links| - 1];
            var l := links[|links| - 1];
            Map(Filter(links, IsTeamLink), LinkName)
              == Map(Filter(init, IsTeamLink), LinkName) + if IsTeamLink(l) then [LinkName(l)] else []
  {
    MapFilterSnoc(links, IsTeamLink, LinkName);
  }

  /** Filtering and mapping a sequence is doing so to all but its last element, then to the last. */
  lemma MapFilterSnoc<T, U>(s: seq<T>, p: T -> bool, f: T -> U)
    requires |s| > 0
    ensures var init := s[..|s| - 1];
            var x := s[|s| - 1];
            Map(Filter(s, p), f) == Map(Filter(init, p), f) + if p(x) then [f(x)] else []
  {
    var init := s[..|s| - 1];
    var x := s[|s| - 1];
    assert s == init + [x];
    FilterAppend(init, [x], p);
    var tail := Filter([x], p);
    assert [x][1..] == [];
    assert tail == (if p(x) then [x] else []) + Filter([], p);
    MapAppend(Filter(init, p), tail, f);
  }

  lemma TeamNamesSnoc(links: seq<Link>)
    requires |links| > 0
    ensures var init := links[..|links| - 1];
            var l := links[|links| - 1];
            TeamNames(links)
              == if IsTeamLink(l) && LinkName(l) !in TeamNames(init) then TeamNames(init) + [LinkName(l)] else TeamNames(init)
  {
    var init := links[..|links| - 1];
    MapAppend(TeamLinks(init), [links[|links| - 1]], LinkName);
  }

  // ---------------------------------------------------------------------------------------
  // Column names

  predicate NonEmpty(s: string)
  {
    |s| > 0
  }

  /**
   * A two-level header flattened to one name: the non-empty levels, each stripped of
   * whitespace, joined by `_`, without leading or trailing `_`.
   */
  function FlattenHeader(levels: seq<string>): (name: string)
    ensures |name| == 0 || (name[0] != '_' && name[|name| - 1] != '_')
  {
    var joined := Join(Map(Filter(levels, NonEmpty), Strip), "_");
    var name := StripWhere(joined, IsUnderscore);
    assert |name| == 0 || (!IsUnderscore(name[0]) && !IsUnderscore(name[|name| - 1]));
    name
  }

  /** Flattening loses nothing when the levels are non-empty, stripped and free of `_`. */
  lemma FlattenHeaderRoundTrip(levels: seq<string>)
    requires |levels| > 0
    requires forall i | 0 <= i < |levels| :: levels[i] != "" && '_' !in levels[i] && Strip(levels[i]) == levels[i]
    ensures Split(FlattenHeader(levels), '_') == levels
  {
    FlattenPlainLevels(levels);
    SplitJoin(levels, '_');
  }

  lemma FlattenPlainLevels(levels: seq<string>)
    requires |levels| > 0
    requires forall i | 0 <= i < |levels| :: levels[i] != "" && '_' !in levels[i] && Strip(levels[i]) == levels[i]
    ensures FlattenHeader(levels) == Join(levels, "_")
  {
    FlattenStrippedLevels(levels);
  }

  /** Levels that are non-empty and stripped, with no `_` at the outer ends, are simply joined. */
  lemma FlattenStrippedLevels(levels: seq<string>)
    requires |levels| > 0
    requires forall i | 0 <= i < |levels| :: levels[i] != "" && Strip(levels[i]) == levels[i]
    requires levels[0][0] != '_' && levels[|levels| - 1][|levels[|levels| - 1]| - 1] != '_'
    ensures FlattenHeader(levels) == Join(levels, "_")
  {
    FilterAll(levels, NonEmpty);
    MapFixed(levels, Strip);
    JoinEnds(levels, "_");
    StripWhereNoop(Join(levels, "_"), IsUnderscore);
  }

  lemma MapFixed<T>(s: seq<T>, f: T -> T)
    requires forall i | 0 <= i < |s| :: f(s[i]) == s[i]
    ensures Map(s, f) == s
  {
  }

  lemma {:induction false} FilterAll<T>(s: seq<T>, p: T -> bool)
    requires forall i | 0 <= i < |s| :: p(s[i])
    ensures Filter(s, p) == s
  {
    if |s| > 0 {
      FilterAll(s[1..], p);
    }
  }

  /** A join of non-empty parts starts with the first part and ends with the last. */
  lemma {:induction false} JoinEnds(parts: seq<string>, sep: string)
    requires |parts| > 0 && forall i | 0 <= i < |parts| :: parts[i] != ""
    ensures var j := Join(parts, sep);
            |j| > 0 && j[0] == parts[0][0] && j[|j| - 1] == parts[|parts| - 1][|parts[|parts| - 1]| - 1]
  {
    if |parts| > 1 {
      var rest := Join(parts[1..], sep);
      JoinEnds(parts[1..], sep);
      assert Join(parts, sep) == parts[0] + sep + rest;
      assert parts[1..][|parts[1..]| - 1] == parts[|parts| - 1];
    }
  }

  /** Stripping changes nothing when neither end is in the class. */
  lemma StripWhereNoop(s: string, p: char -> bool)
    requires |s| == 0 || (!p(s[0]) && !p(s[|s| - 1]))
    ensures StripWhere(s, p) == s
  {
    assert LeadingRun(s, p) == 0;
    assert s[0..] == s;
    assert TrailingRun(s, p) == 0;
  }

  // ---------------------------------------------------------------------------------------
  // The player column

  const PlayerWord := "player"

  /** The player column: its lower-cased name mentions `player` and its first `_`-part is `player`. */
  predicate IsPlayerColumn(name: string)
  {
    Contains(Lower(name), PlayerWord) && FirstSegment(Lower(name), '_') == PlayerWord
  }

  /**
   * A column is the player column exactly when its lower-cased name is `player` or starts
   * with `player_`; the `player`-mention test adds nothing to the first-part test.
   */
  lemma IsPlayerColumnIff(name: string)
    ensures IsPlayerColumn(name) <==> Lower(name) == PlayerWord || StartsWith(Lower(name), PlayerWord + "_")
  {
    var l := Lower(name);
    FirstSegmentIs(l, '_', PlayerWord);
    if l == PlayerWord {
      assert StartsWith(l, PlayerWord);
    } else if StartsWith(l, PlayerWord + "_") {
      assert l[..6] == (PlayerWord + "_")[..6];
      assert StartsWith(l, PlayerWord);
    }
  }

  /** The position of the first player column, if any. */
  function PlayerColumn(names: seq<string>): (r: Option<nat>)
    ensures r.Some? ==> r.value < |names| && IsPlayerColumn(names[r.value])
    ensures r.Some? ==> forall k | 0 <= k < r.value :: !IsPlayerColumn(names[k])
    ensures r.None? ==> forall k | 0 <= k < |names| :: !IsPlayerColumn(names[k])
  {
    if |names| == 0 then None
    else if IsPlayerColumn(names[0]) then Some(0)
    else
      match PlayerColumn(names[1..])
      case None => None
      case Some(k) => Some(k + 1)
  }

  // ---------------------------------------------------------------------------------------
  // Total rows

  /** The two alternatives of the total-row pattern, matched without regard to letter case. */
  const TotalWord := "total"
  const SquadTotalWords := "squad total"

  predicate MentionsTotal(v: string)
  {
    Contains(Lower(v), TotalWord) || Contains(Lower(v), SquadTotalWords)
  }

  /** The `squad total` alternative is subsumed by the `total` one. */
  lemma MentionsTotalIff(v: string)
    ensures MentionsTotal(v) <==> Contains(Lower(v), TotalWord)
  {
    if Contains(Lower(v), SquadTotalWords) {
      assert OccursAt(SquadTotalWords, TotalWord, 6);
      ContainsIff(SquadTotalWords, TotalWord);
      ContainsTransitive(Lower(v), SquadTotalWords, TotalWord);
    }
  }

  /** A player row: the player cell is present and does not mention a total. */
  predicate IsPlayerRow(c: Cell)
  {
    c.Some? && !MentionsTotal(c.value)
  }

  // ---------------------------------------------------------------------------------------
  // Relevant columns

  const Keywords := ["player", "nation", "pos", "age", "mp", "starts", "min", "gls", "ast", "xg", "crd"]

  /** A column worth keeping: its lower-cased name mentions one of the keywords. */
  predicate IsRelevant(name: string)
  {
    exists k | 0 <= k < |Keywords| :: Contains(Lower(name), Keywords[k])
  }

  /** The columns whose names mention a keyword, in their original order. */
  function RelevantColumns(f: Frame): (r: Frame)
    ensures r.height == f.height && (f.Valid() ==> r.Valid())
    ensures Subsequence(r.columns, f.columns)
    ensures forall j | 0 <= j < |r.columns| :: r.columns[j] in f.columns && IsRelevant(r.columns[j].name)
    ensures forall j | 0 <= j < |f.columns| :: IsRelevant(f.columns[j].name) ==> f.columns[j] in r.columns
  {
    KeepColumns(f, (c: Column) => IsRelevant(c.name))
  }

  /** The player column is always relevant. */
  lemma PlayerColumnRelevant(name: string)
    requires IsPlayerColumn(name)
    ensures IsRelevant(name)
  {
    assert Keywords[0] == PlayerWord;
  }

  // ---------------------------------------------------------------------------------------
  // Squad tables

  /** A column as the HTML parser reads it with a two-row header: its header levels and cells. */
  datatype RawColumn = RawColumn(levels: seq<string>, cells: seq<Cell>)

  datatype RawTable = RawTable(height: nat, columns: seq<RawColumn>)
  {
    predicate Valid()
    {
      forall j | 0 <= j < |columns| :: |columns[j].cells| == height
    }
  }

  const PlayerHeader := "Player"

  /** Some header level of the table mentions `Player`. */
  predicate MentionsPlayer(t: RawTable)
  {
    exists j, k | 0 <= j < |t.columns| && 0 <= k < |t.columns[j].levels| :: Contains(t.columns[j].levels[k], PlayerHeader)
  }

  /** A table worth looking at: it mentions `Player` and has rows. */
  predicate IsCandidate(t: RawTable)
  {
    MentionsPlayer(t) && t.height > 0
  }

  function HeaderName(c: RawColumn): string
  {
    FlattenHeader(c.levels)
  }

  /** The table with each header flattened to one name. */
  function FlattenTable(t: RawTable): (f: Frame)
    requires t.Valid()
    ensures f.Valid() && f.height == t.height
    ensures f.Names() == Map(t.columns, HeaderName)
  {
    var f := Frame(t.height, Map(t.columns, (c: RawColumn) => Column(HeaderName(c), c.cells)));
    assert f.Names() == Map(t.columns, HeaderName);
    f
  }

  /** The player rows of a table, with only the relevant columns that hold some value. */
  function CleanPlayers(kept: Frame): Frame
  {
    DropAllMissing(RelevantColumns(kept))
  }

  /** A cleaned squad table: player rows only, relevant non-empty columns only. */
  predicate PlayersClean(f: Frame)
  {
    && f.height > 0
    && (exists j | 0 <= j < |f.columns| :: IsPlayerColumn(f.columns[j].name) && AllCells(f.columns[j], IsPlayerRow))
    && forall j | 0 <= j < |f.columns| :: IsRelevant(f.columns[j].name) && HasValues(f.columns[j])
  }

  /**
   * What one table yields, when it yields player rows: the rows of a candidate table whose
   * player cell is present and mentions no total, cut down to the relevant columns.  A table
   * yields nothing exactly when it is not a candidate, has no player column, or has no
   * player row.
   */
  function PlayersOf(t: RawTable): (r: Option<Frame>)
    requires t.Valid()
    ensures r.Some? ==> r.value.Valid() && PlayersClean(r.value)
    ensures r.None? <==>
              || !IsCandidate(t)
              || PlayerColumn(FlattenTable(t).Names()).None?
              || !AnyCell(FlattenTable(t).columns[PlayerColumn(FlattenTable(t).Names()).value], IsPlayerRow)
  {
    if !IsCandidate(t) then None
    else
      var flat := FlattenTable(t);
      match PlayerColumn(flat.Names())
      case None => None
      case Some(j) =>
        if !HasValues(flat.columns[j]) then None
        else
          var kept := RowsWhere(flat, j, IsPlayerRow);
          PlayerRowsFound(flat, j);
          if kept.height == 0 then None
          else
            CleanKeepsPlayers(flat, j);
            Some(CleanPlayers(kept))
  }

  /** Rows are kept exactly when some player cell passes, and only when the column has a value. */
  lemma PlayerRowsFound(flat: Frame, j: nat)
    requires flat.Valid() && j < |flat.columns|
    ensures RowsWhere(flat, j, IsPlayerRow).height > 0 <==> AnyCell(flat.columns[j], IsPlayerRow)
    ensures AnyCell(flat.columns[j], IsPlayerRow) ==> HasValues(flat.columns[j])
  {
    var keep := PassingRows(flat, j, IsPlayerRow);
    RowsWhereCut(flat, j, IsPlayerRow);
    var c := flat.columns[j];
    if AnyCell(c, IsPlayerRow) {
      var i :| 0 <= i < |c.cells| && IsPlayerRow(c.cells[i]);
      assert CellAt(c, i) == c.cells[i];
      assert i in keep;
    }
    if |keep| > 0 {
      assert keep[0] < flat.height && IsPlayerRow(CellAt(c, keep[0]));
      assert c.cells[keep[0]] == CellAt(c, keep[0]);
    }
  }

  /**
   * The rows a table yields are exactly its player rows: one per row whose player cell
   * passes, each column being a column of the table cut down to those rows; the player
   * column is among them, and so is every relevant column that still holds a value.
   */
  lemma PlayersOfRows(t: RawTable)
    requires t.Valid() && PlayersOf(t).Some?
    ensures var flat := FlattenTable(t);
            var j := PlayerColumn(flat.Names()).value;
            var keep := PassingRows(flat, j, IsPlayerRow);
            var cut := CutColumns(flat, keep);
            var r := PlayersOf(t).value;
            && r.height == |keep|
            && CutTo(flat.columns[j], keep) in r.columns
            && (forall k | 0 <= k < |r.columns| :: r.columns[k] in cut)
            && (forall m | 0 <= m < |cut| :: IsRelevant(cut[m].name) && HasValues(cut[m]) ==> cut[m] in r.columns)
  {
    var flat := FlattenTable(t);
    var j := PlayerColumn(flat.Names()).value;
    var keep := PassingRows(flat, j, IsPlayerRow);
    var kept := RowsWhere(flat, j, IsPlayerRow);
    RowsWhereCut(flat, j, IsPlayerRow);
    var r := PlayersOf(t).value;
    assert r == CleanPlayers(kept);
    CleanColumnsFrom(kept);
    forall m | 0 <= m < |kept.columns| && IsRelevant(kept.columns[m].name) && HasValues(kept.columns[m])
      ensures kept.columns[m] in r.columns
    {
      CleanKeepsColumn(kept, kept.columns[m]);
    }
    RowsWhereAll(flat, j, IsPlayerRow);
    var pc := kept.columns[j];
    assert pc.name == flat.Names()[j];
    PlayerColumnRelevant(pc.name);
    assert IsPlayerRow(pc.cells[0]);
    CleanKeepsColumn(kept, pc);
  }

  /** The clean-up keeps the height and only columns it was given. */
  lemma CleanColumnsFrom(kept: Frame)
    ensures var r := CleanPlayers(kept);
            r.height == kept.height && forall k | 0 <= k < |r.columns| :: r.columns[k] in kept.columns
  {
    var sel := RelevantColumns(kept);
    var r := DropAllMissing(sel);
    forall k | 0 <= k < |r.columns|
      ensures r.columns[k] in kept.columns
    {
      var n :| 0 <= n < |sel.columns| && sel.columns[n] == r.columns[k];
    }
  }

  lemma CleanKeepsPlayers(flat: Frame, j: nat)
    requires flat.Valid() && j < |flat.columns| && IsPlayerColumn(flat.Names()[j])
    requires RowsWhere(flat, j, IsPlayerRow).height > 0
    ensures var r := CleanPlayers(RowsWhere(flat, j, IsPlayerRow));
            r.Valid() && PlayersClean(r)
  {
    var kept := RowsWhere(flat, j, IsPlayerRow);
    var c := kept.columns[j];
    RowsWhereAll(flat, j, IsPlayerRow);
    assert c.name == kept.Names()[j] == flat.Names()[j];
    PlayerColumnRelevant(c.name);
    assert IsPlayerRow(c.cells[0]);
    CleanKeepsColumn(kept, c);
    CleanColumnsRelevant(kept);
    var r := CleanPlayers(kept);
    var k :| 0 <= k < |r.columns| && r.columns[k] == c;
    assert IsPlayerColumn(r.columns[k].name) && AllCells(r.columns[k], IsPlayerRow);
  }

  /** A relevant column holding some value survives the clean-up. */
  lemma CleanKeepsColumn(kept: Frame, c: Column)
    requires c in kept.columns && IsRelevant(c.name) && HasValues(c)
    ensures c in CleanPlayers(kept).columns
  {
    var sel := RelevantColumns(kept);
    var n :| 0 <= n < |kept.columns| && kept.columns[n] == c;
    assert c in sel.columns;
    var m :| 0 <= m < |sel.columns| && sel.columns[m] == c;
    assert HasValues(sel.columns[m]);
  }

  /** Every column left by the clean-up is relevant and holds some value. */
  lemma CleanColumnsRelevant(kept: Frame)
    ensures var r := CleanPlayers(kept);
            forall i | 0 <= i < |r.columns| :: IsRelevant(r.columns[i].name) && HasValues(r.columns[i])
  {
    var sel := RelevantColumns(kept);
    var r := DropAllMissing(sel);
    forall i | 0 <= i < |r.columns|
      ensures IsRelevant(r.columns[i].name) && HasValues(r.columns[i])
    {
      var n :| 0 <= n < |sel.columns| && sel.columns[n] == r.columns[i];
    }
  }

  /** What the loop as written does with one table: stop with a frame, or go on holding a frame. */
  datatype Step = Stop(frame: Frame) | Next(frame: Frame)

  /**
   * One turn of the scraper's loop over the tables of a squad page, as written.  `current` is
   * the frame the loop holds.  A candidate table replaces it before its player column is
   * looked for, so a table without one is left in place when the loop moves on; a player
   * column with no present cell makes the total-row test fail, which ends the loop with the
   * unfiltered table in place; a table whose player rows are all filtered out leaves an empty
   * frame.
   */
  function TableStepAsWritten(t: RawTable, current: Frame): (s: Step)
    requires t.Valid() && current.Valid()
    ensures s.frame.Valid()
    ensures !IsCandidate(t) ==> s == Next(current)
  {
    if !IsCandidate(t) then Next(current)
    else
      var flat := FlattenTable(t);
      match PlayerColumn(flat.Names())
      case None => Next(flat)
      case Some(j) =>
        if !HasValues(flat.columns[j]) then Stop(flat)
        else
          var kept := RowsWhere(flat, j, IsPlayerRow);
          if kept.height > 0 then Stop(CleanPlayers(kept)) else Next(kept)
  }

  /** The scraper's loop over the tables of a squad page, as written. */
  function PlayerLoopAsWritten(tables: seq<RawTable>, current: Frame): (r: Frame)
    requires forall k | 0 <= k < |tables| :: tables[k].Valid()
    requires current.Valid()
    ensures r.Valid()
  {
    if |tables| == 0 then current
    else
      match TableStepAsWritten(tables[0], current)
      case Stop(f) => f
      case Next(f) => PlayerLoopAsWritten(tables[1..], f)
  }

  function ExtractPlayersAsWritten(tables: seq<RawTable>): (r: Frame)
    requires forall k | 0 <= k < |tables| :: tables[k].Valid()
    ensures r.Valid()
  {
    PlayerLoopAsWritten(tables, NoFrame)
  }

  /** Every candidate table has a player column holding some value. */
  predicate PlayerColumnsFilled(tables: seq<RawTable>)
    requires forall k | 0 <= k < |tables| :: tables[k].Valid()
  {
    forall k | 0 <= k < |tables| && IsCandidate(tables[k]) ::
      && PlayerColumn(FlattenTable(tables[k]).Names()).Some?
      && HasValues(FlattenTable(tables[k]).columns[PlayerColumn(FlattenTable(tables[k]).Names()).value])
  }

  /**
   * When every candidate table has a player column holding some value, the loop as written
   * and the squad extraction agree: the loop ends with an empty frame exactly when no table
   * yields player rows, and otherwise both give the same frame.
   */
  lemma ExtractPlayersAgrees(tables: seq<RawTable>)
    requires forall k | 0 <= k < |tables| :: tables[k].Valid()
    requires PlayerColumnsFilled(tables)
    ensures ExtractPlayersAsWritten(tables).Empty() <==> ExtractPlayers(tables) == NoFrame
    ensures ExtractPlayers(tables) != NoFrame ==> ExtractPlayersAsWritten(tables) == ExtractPlayers(tables)
  {
    LoopAgrees(tables, NoFrame);
    match FirstSome(tables, PlayersOf)
    case None =>
    case Some(v) =>
      var k :| 0 <= k < |tables| && PlayersOf(tables[k]) == Some(v);
      assert PlayersClean(v);
  }

  /** The loop as written, started on an empty frame, ends on the first table that yields rows. */
  lemma {:induction false} LoopAgrees(tables: seq<RawTable>, current: Frame)
    requires forall k | 0 <= k < |tables| :: tables[k].Valid()
    requires PlayerColumnsFilled(tables)
    requires current.Valid() && current.Empty()
    ensures FirstSome(tables, PlayersOf).Some? ==> PlayerLoopAsWritten(tables, current) == FirstSome(tables, PlayersOf).value
    ensures FirstSome(tables, PlayersOf).None? ==> PlayerLoopAsWritten(tables, current).Empty()
  {
    if |tables| > 0 {
      var t := tables[0];
      StepAgrees(t, current);
      if PlayersOf(t).None? {
        FilledTail(tables);
        LoopAgrees(tables[1..], TableStepAsWritten(t, current).frame);
      }
    }
  }

  lemma FilledTail(tables: seq<RawTable>)
    requires |tables| > 0 && forall k | 0 <= k < |tables| :: tables[k].Valid()
    requires PlayerColumnsFilled(tables)
    ensures PlayerColumnsFilled(tables[1..])
  {
    forall k | 0 <= k < |tables[1..]|
      ensures tables[1..][k] == tables[k + 1]
    {
    }
  }

  /**
   * One table, when its player column holds some value: the loop as written stops with what
   * the table yields, or moves on holding an empty frame when it yields nothing.
   */
  lemma StepAgrees(t: RawTable, current: Frame)
    requires t.Valid() && current.Valid() && current.Empty()
    requires IsCandidate(t) ==>
               && PlayerColumn(FlattenTable(t).Names()).Some?
               && HasValues(FlattenTable(t).columns[PlayerColumn(FlattenTable(t).Names()).value])
    ensures PlayersOf(t).Some? ==> TableStepAsWritten(t, current) == Stop(PlayersOf(t).value)
    ensures PlayersOf(t).None? ==> TableStepAsWritten(t, current).Next? && TableStepAsWritten(t, current).frame.Empty()
  {
  }

  /** The squad table of a page: what the first table that yields player rows yields, or no frame. */
  function ExtractPlayers(tables: seq<RawTable>): (r: Frame)
    requires forall k | 0 <= k < |tables| :: tables[k].Valid()
    ensures r.Valid()
    ensures r == NoFrame || PlayersClean(r)
    ensures r == NoFrame <==> forall k | 0 <= k < |tables| :: PlayersOf(tables[k]).None?
    ensures r != NoFrame ==> exists k | 0 <= k < |tables| ::
              PlayersOf(tables[k]) == Some(r) && forall m | 0 <= m < k :: PlayersOf(tables[m]).None?
  {
    FirstYieldClean(tables);
    FirstOr(tables, PlayersOf, NoFrame)
  }

  /** No table yields the empty frame. */
  lemma NoEmptyYield(tables: seq<RawTable>)
    requires forall k | 0 <= k < |tables| :: tables[k].Valid()
    ensures forall k | 0 <= k < |tables| :: PlayersOf(tables[k]) != Some(NoFrame)
  {
    forall k | 0 <= k < |tables| && PlayersOf(tables[k]).Some?
      ensures PlayersOf(tables[k]).value.height > 0
    {
    }
  }

  /** The first frame some table yields is a cleaned squad table. */
  lemma FirstYieldClean(tables: seq<RawTable>)
    requires forall k | 0 <= k < |tables| :: tables[k].Valid()
    ensures forall k | 0 <= k < |tables| :: PlayersOf(tables[k]) != Some(NoFrame)
    ensures var r := FirstOr(tables, PlayersOf, NoFrame); r == NoFrame || (r.Valid() && PlayersClean(r))
  {
    NoEmptyYield(tables);
    var r := FirstOr(tables, PlayersOf, NoFrame);
    if r != NoFrame {
      var k :| 0 <= k < |tables| && PlayersOf(tables[k]) == Some(r);
    }
  }

  /** The first value `y` gives along `s`, or `none` when it gives none. */
  function FirstOr<T, U(==)>(s: seq<T>, y: T --> Option<U>, none: U): (r: U)
    requires forall k | 0 <= k < |s| :: y.requires(s[k]) && y(s[k]) != Some(none)
    ensures r == none <==> forall k | 0 <= k < |s| :: y(s[k]).None?
    ensures r != none ==> exists k | 0 <= k < |s| :: y(s[k]) == Some(r) && forall m | 0 <= m < k :: y(s[m]).None?
  {
    match FirstSome(s, y)
    case None => none
    case Some(v) => v
  }

  /** The first value `y` gives along `s`, if it gives any. */
  function FirstSome<T, U>(s: seq<T>, y: T --> Option<U>): (r: Option<U>)
    requires forall k | 0 <= k < |s| :: y.requires(s[k])
    ensures r.None? <==> forall k | 0 <= k < |s| :: y(s[k]).None?
    ensures r.Some? ==> exists k | 0 <= k < |s| :: y(s[k]) == r && forall m | 0 <= m < k :: y(s[m]).None?
  {
    if |s| == 0 then None
    else if y(s[0]).Some? then
      y(s[0])
    else
      var r := FirstSome(s[1..], y);
      assert forall k | 1 <= k < |s| :: s[k] == s[1..][k - 1];
      if r.Some? then
        FirstSomeShift(s, y, r.value);
        r
      else
        r
  }

  /** A first `Some` found in the tail of `s` is the first `Some` in `s` when `s[0]` gives `None`. */
  lemma FirstSomeShift<T, U>(s: seq<T>, y: T --> Option<U>, v: U)
    requires forall k | 0 <= k < |s| :: y.requires(s[k])
    requires |s| > 0 && y(s[0]).None?
    requires exists k | 0 <= k < |s[1..]| :: y(s[1..][k]) == Some(v) && forall m | 0 <= m < k :: y(s[1..][m]).None?
    ensures exists k | 0 <= k < |s| :: y(s[k]) == Some(v) && forall m | 0 <= m < k :: y(s[m]).None?
  {
    var k :| 0 <= k < |s[1..]| && y(s[1..][k]) == Some(v) && forall m | 0 <= m < k :: y(s[1..][m]).None?;
    assert s[k + 1] == s[1..][k];
    forall m | 0 <= m < k + 1
      ensures y(s[m]).None?
    {
      if m > 0 {
        assert s[m] == s[1..][m - 1];
      }
    }
  }

  /** A candidate table without a player column is kept whole by the loop as written. */
  lemma NoPlayerColumnKept(t: RawTable)
    requires t.Valid() && IsCandidate(t) && PlayerColumn(FlattenTable(t).Names()).None?
    ensures ExtractPlayersAsWritten([t]) == FlattenTable(t)
    ensures ExtractPlayers([t]) == NoFrame
  {
    var flat := FlattenTable(t);
    assert [t][1..] == [];
    assert PlayerLoopAsWritten([], flat) == flat;
    assert PlayerLoopAsWritten([t], NoFrame) == PlayerLoopAsWritten([], flat);
    assert PlayersOf(t).None?;
  }

  /** A candidate table whose player column holds no value is kept whole by the loop as written. */
  lemma MissingPlayersKept(t: RawTable, j: nat)
    requires t.Valid() && IsCandidate(t) && PlayerColumn(FlattenTable(t).Names()) == Some(j)
    requires !HasValues(FlattenTable(t).columns[j])
    ensures ExtractPlayersAsWritten([t]) == FlattenTable(t)
    ensures ExtractPlayers([t]) == NoFrame
  {
    MissingPlayersLoop(t, j);
    MissingPlayersNone(t, j);
  }

  lemma MissingPlayersLoop(t: RawTable, j: nat)
    requires t.Valid() && IsCandidate(t) && PlayerColumn(FlattenTable(t).Names()) == Some(j)
    requires !HasValues(FlattenTable(t).columns[j])
    ensures ExtractPlayersAsWritten([t]) == FlattenTable(t)
  {
    assert TableStepAsWritten(t, NoFrame) == Stop(FlattenTable(t));
    assert [t][0] == t;
  }

  lemma MissingPlayersNone(t: RawTable, j: nat)
    requires t.Valid() && IsCandidate(t) && PlayerColumn(FlattenTable(t).Names()) == Some(j)
    requires !HasValues(FlattenTable(t).columns[j])
    ensures ExtractPlayers([t]) == NoFrame
  {
    assert PlayersOf(t).None?;
    assert [t][0] == t;
  }

  /** A header as the parser names an unlabelled upper header cell. */
  const UnnamedLevel := "Unnamed: 0_level_0"

  /**
   * A squad table whose player header sits under an unlabelled upper cell: its flattened
   * name starts with `Unnamed`, so it has no player column.
   */
  const UnlabelledSquad := RawTable(2, [RawColumn([UnnamedLevel, PlayerHeader], [Some("Bukayo Saka"), Some("Squad Total")])])

  /**
   * On that page the scraper as written keeps the whole table, total row included, while
   * no table of the page yields player rows.
   */
  lemma UnlabelledSquadLeaks()
    ensures var r := ExtractPlayersAsWritten([UnlabelledSquad]);
            && r.height == 2 && |r.columns| == 1
            && r.columns[0].cells[1] == Some("Squad Total") && !IsPlayerRow(r.columns[0].cells[1])
    ensures ExtractPlayers([UnlabelledSquad]) == NoFrame
  {
    UnlabelledSquadShape();
    NoPlayerColumnKept(UnlabelledSquad);
    SquadTotalIsTotal();
  }

  lemma UnlabelledSquadShape()
    ensures var t := UnlabelledSquad;
            t.Valid() && IsCandidate(t) && PlayerColumn(FlattenTable(t).Names()).None?
  {
    PlayerMentioned(UnlabelledSquad);
    UnlabelledNoPlayerColumn();
  }

  lemma PlayerMentioned(t: RawTable)
    requires t.height > 0 && |t.columns| > 0 && |t.columns[0].levels| == 2 && t.columns[0].levels[1] == PlayerHeader
    ensures IsCandidate(t)
  {
    assert StartsWith(PlayerHeader, PlayerHeader);
  }

  lemma UnlabelledNoPlayerColumn()
    ensures FlattenTable(UnlabelledSquad).Names() == [UnnamedLevel + "_" + PlayerHeader]
    ensures PlayerColumn(FlattenTable(UnlabelledSquad).Names()).None?
  {
    var name := UnnamedLevel + "_" + PlayerHeader;
    OneColumnNames(UnlabelledSquad);
    UnlabelledName();
    UnnamedFirst();
    NotPlayerColumn(name);
  }

  lemma UnnamedFirst()
    ensures (UnnamedLevel + "_" + PlayerHeader)[0] == 'U'
  {
    assert UnnamedLevel[0] == 'U';
  }

  /** A one-column table has its one flattened header as its names. */
  lemma OneColumnNames(t: RawTable)
    requires t.Valid() && |t.columns| == 1
    ensures FlattenTable(t).Names() == [HeaderName(t.columns[0])]
  {
  }

  /** A name that does not start with `p` or `P` is not the player column. */
  lemma NotPlayerColumn(name: string)
    requires |name| > 0 && name[0] != 'p' && name[0] != 'P'
    ensures !IsPlayerColumn(name)
  {
    IsPlayerColumnIff(name);
    var l := Lower(name);
    assert l[0] != 'p';
    assert l != PlayerWord by {
      assert PlayerWord[0] == 'p';
    }
    assert !StartsWith(l, PlayerWord + "_") by {
      assert (PlayerWord + "_")[0] == 'p';
    }
  }

  lemma SquadTotalIsTotal()
    ensures MentionsTotal("Squad Total")
  {
    var l := Lower("Squad Total");
    assert l[6..11] == TotalWord;
    assert OccursAt(l, TotalWord, 6);
    ContainsIff(l, TotalWord);
  }

  lemma UnlabelledName()
    ensures HeaderName(UnlabelledSquad.columns[0]) == UnnamedLevel + "_" + PlayerHeader
  {
    var levels := [UnnamedLevel, PlayerHeader];
    assert UnlabelledSquad.columns[0].levels == levels;
    StripWhereNoop(UnnamedLevel, IsSpace);
    StripWhereNoop(PlayerHeader, IsSpace);
    FlattenStrippedLevels(levels);
  }

  /** A squad table whose player column came out of the parser with no value in it. */
  const BlankSquad := RawTable(1, [RawColumn(["", PlayerHeader], [None]), RawColumn(["", "Nation"], [Some("eng ENG")])])

  /**
   * On that page the scraper as written keeps the whole table, a row without a player
   * included, while no table of the page yields player rows.
   */
  lemma BlankSquadLeaks()
    ensures var r := ExtractPlayersAsWritten([BlankSquad]);
            && r.height == 1 && |r.columns| == 2
            && IsPlayerColumn(r.columns[0].name) && r.columns[0].cells[0] == None
    ensures ExtractPlayers([BlankSquad]) == NoFrame
  {
    BlankSquadShape();
    MissingPlayersKept(BlankSquad, 0);
  }

  lemma BlankSquadShape()
    ensures var t := BlankSquad;
            && t.Valid() && IsCandidate(t) && PlayerColumn(FlattenTable(t).Names()) == Some(0)
            && !HasValues(FlattenTable(t).columns[0])
  {
    PlayerMentioned(BlankSquad);
    BlankPlayerColumn();
    BlankPlayerCells();
  }

  lemma BlankPlayerCells()
    ensures !HasValues(FlattenTable(BlankSquad).columns[0])
  {
    assert FlattenTable(BlankSquad).columns[0].cells == [None];
  }

  lemma BlankPlayerColumn()
    ensures FlattenTable(BlankSquad).Names()[0] == PlayerHeader
    ensures PlayerColumn(FlattenTable(BlankSquad).Names()) == Some(0)
  {
    BlankName(BlankSquad.columns[0]);
    PlayerHeaderIsPlayerColumn();
  }

  lemma PlayerHeaderIsPlayerColumn()
    ensures IsPlayerColumn(PlayerHeader)
  {
    assert Lower(PlayerHeader) == PlayerWord;
    IsPlayerColumnIff(PlayerHeader);
  }

  lemma BlankName(c: RawColumn)
    requires c.levels == ["", PlayerHeader]
    ensures HeaderName(c) == PlayerHeader
  {
    assert Filter(c.levels, NonEmpty) == [PlayerHeader];
    StripWhereNoop(PlayerHeader, IsSpace);
    assert Map([PlayerHeader], Strip) == [PlayerHeader];
    StripWhereNoop(PlayerHeader, IsUnderscore);
  }

  // ---------------------------------------------------------------------------------------
  // Match tables

  const DateColumn := "Date"
  const CompColumn := "Comp"
  const League := "Premier League"

  /** The match columns worth keeping, in the order they are kept. */
  const MatchColumns := [DateColumn, "Time", CompColumn, "Round", "Venue", "Result", "GF", "GA", "Opponent", "xG", "xGA", "Poss"]

  /** Some column name of `f` mentions `word`. */
  predicate NameMentions(f: Frame, word: string)
  {
    exists j | 0 <= j < |f.columns| :: Contains(f.columns[j].name, word)
  }

  /** A table worth taking as the match list: it mentions `Date` and `Comp` and has rows. */
  predicate IsMatchTable(f: Frame)
  {
    NameMentions(f, DateColumn) && NameMentions(f, CompColumn) && f.height > 0
  }

  /** The first match table of the page, if any. */
  function FirstMatchTable(tables: seq<Table>): (r: Option<Table>)
    ensures r.Some? ==> IsMatchTable(r.value)
    ensures r.Some? ==> exists k | 0 <= k < |tables| :: tables[k] == r.value && forall m | 0 <= m < k :: !IsMatchTable(tables[m])
    ensures r.None? ==> forall k | 0 <= k < |tables| :: !IsMatchTable(tables[k])
  {
    if |tables| == 0 then None
    else if IsMatchTable(tables[0]) then Some(tables[0])
    else
      var r := FirstMatchTable(tables[1..]);
      FirstMatchShift(tables, r);
      r
  }

  lemma FirstMatchShift(tables: seq<Table>, r: Option<Table>)
    requires |tables| > 0 && !IsMatchTable(tables[0])
    requires r.Some? ==> exists k | 0 <= k < |tables[1..]| ::
               tables[1..][k] == r.value && forall m | 0 <= m < k :: !IsMatchTable(tables[1..][m])
    requires r.None? ==> forall k | 0 <= k < |tables[1..]| :: !IsMatchTable(tables[1..][k])
    ensures r.Some? ==> exists k | 0 <= k < |tables| :: tables[k] == r.value && forall m | 0 <= m < k :: !IsMatchTable(tables[m])
    ensures r.None? ==> forall k | 0 <= k < |tables| :: !IsMatchTable(tables[k])
  {
    assert forall k | 1 <= k < |tables| :: tables[k] == tables[1..][k - 1];
    if r.Some? {
      var k :| 0 <= k < |tables[1..]| && tables[1..][k] == r.value && forall m | 0 <= m < k :: !IsMatchTable(tables[1..][m]);
      assert tables[k + 1] == r.value;
    }
  }

  /** A competition cell naming the league. */
  predicate IsLeagueCell(c: Cell)
  {
    c.Some? && Contains(c.value, League)
  }

  /**
   * The league matches, when the table has a competition column: exactly the rows whose
   * competition names the league, in order.  Without the column every row stays.
   */
  function LeagueRows(f: Frame): (r: Frame)
    requires f.Valid()
    ensures r.Valid() && r.Names() == f.Names() && r.height <= f.height
    ensures CompColumn in f.Names() ==> Rows(r) == Filter(Rows(f), CellOk(IndexOf(f.Names(), CompColumn), IsLeagueCell))
    ensures CompColumn !in f.Names() ==> r == f
  {
    if CompColumn in f.Names() then RowsWhere(f, IndexOf(f.Names(), CompColumn), IsLeagueCell) else f
  }

  /**
   * The matches of a table with a date column: the dated rows, the listed columns it has
   * that hold some value, and the league rows among them.
   */
  function MatchesOf(t: Table): (r: Frame)
    requires DateColumn in t.Names()
    ensures r.Valid() && r.height <= t.height
  {
    var dated := RowsWhere(t, IndexOf(t.Names(), DateColumn), Present);
    LeagueRows(DropAllMissing(SelectByNames(dated, MatchColumns)))
  }

  /**
   * The rows the match clean-up keeps, by position in the match table `t`: the rows with a
   * date and, when the competition column is filtered on, the league rows among them.
   */
  function MatchRows(t: Frame, league: bool): (idx: seq<nat>)
    requires DateColumn in t.Names()
    ensures forall i: nat :: i in idx <==>
              && i < t.height
              && Present(CellAt(ColumnNamed(t, DateColumn), i))
              && (league && CompColumn in t.Names() ==> IsLeagueCell(CellAt(ColumnNamed(t, CompColumn), i)))
  {
    var dated := Filter<nat>(Range(t.height), PassesAt(ColumnNamed(t, DateColumn), Present));
    RangeMember(t.height);
    FilterMember(Range(t.height), PassesAt(ColumnNamed(t, DateColumn), Present));
    if league && CompColumn in t.Names() then
      FilterMember(dated, PassesAt(ColumnNamed(t, CompColumn), IsLeagueCell));
      Filter(dated, PassesAt(ColumnNamed(t, CompColumn), IsLeagueCell))
    else dated
  }

  /**
   * Column `n` of the match table `t` holds a value on one of the dated rows, so the
   * clean-up's `dropna(axis=1, how='all')` keeps it.
   */
  predicate DatedValue(t: Frame, n: string)
  {
    && DateColumn in t.Names() && n in t.Names()
    && exists i | i in MatchRows(t, false) :: Present(CellAt(ColumnNamed(t, n), i))
  }

  function DatedValueIn(t: Frame): string -> bool
  {
    n => DatedValue(t, n)
  }

  /** The columns the match clean-up keeps, in the listed order. */
  function MatchNames(t: Frame): (names: seq<string>)
    ensures forall n :: n in names <==> n in MatchColumns && DatedValue(t, n)
    ensures CompColumn in names <==> DatedValue(t, CompColumn)
  {
    FilterMember(MatchColumns, DatedValueIn(t));
    assert MatchColumns[2] == CompColumn;
    Filter(MatchColumns, DatedValueIn(t))
  }

  /** What the match clean-up promises of its result `r` for the table `t` it started from. */
  predicate MatchesClean(r: Frame, t: Frame)
  {
    && Subsequence(r.Names(), Filter(MatchColumns, n => n in t.Names()))
    && (r.height > 0 ==> DateColumn in r.Names())
    && (DateColumn in r.Names() ==> AllCells(ColumnNamed(r, DateColumn), Present))
    && (CompColumn in r.Names() ==> AllCells(ColumnNamed(r, CompColumn), IsLeagueCell))
  }

  /**
   * The match list of a page.  Without a match table it is no frame; a match table with no
   * column named exactly `Date` makes the date filter fail and is kept as found; otherwise
   * only listed columns remain, every date is present and every competition is the league.
   */
  function ExtractMatches(tables: seq<Table>): (r: Frame)
    ensures r.Valid()
    ensures FirstMatchTable(tables).None? ==> r == NoFrame
    ensures FirstMatchTable(tables).Some? && DateColumn !in FirstMatchTable(tables).value.Names() ==>
              r == FirstMatchTable(tables).value
    ensures FirstMatchTable(tables).Some? && DateColumn in FirstMatchTable(tables).value.Names() ==>
              && r.height <= FirstMatchTable(tables).value.height
              && MatchesClean(r, FirstMatchTable(tables).value)
              && PicksRows(r, FirstMatchTable(tables).value, MatchRows(FirstMatchTable(tables).value, CompColumn in r.Names()))
              && r.Names() == MatchNames(FirstMatchTable(tables).value)
              && (CompColumn in r.Names() <==> DatedValue(FirstMatchTable(tables).value, CompColumn))
  {
    match FirstMatchTable(tables)
    case None => NoFrame
    case Some(t) =>
      if DateColumn !in t.Names() then t
      else
        MatchesOfClean(t);
        MatchesOfRows(t);
        MatchesOf(t)
  }

  /**
   * The matches of a table are its dated rows and, when the competition column survives the
   * clean-up, only the league rows among them; every other dated row stays.  The columns are
   * the listed ones holding a value on a dated row, in the listed order, so the competition
   * column, and with it the league filter, is dropped only when no dated row names a
   * competition.
   */
  lemma MatchesOfRows(t: Table)
    requires DateColumn in t.Names()
    ensures PicksRows(MatchesOf(t), t, MatchRows(t, CompColumn in MatchesOf(t).Names()))
    ensures MatchesOf(t).Names() == MatchNames(t)
    ensures CompColumn in MatchesOf(t).Names() <==> DatedValue(t, CompColumn)
  {
    assert MatchesOf(t).Names() == MatchNames(t) by {
      MatchesOfNames(t);
    }
    assert PicksRows(MatchesOf(t), t, MatchRows(t, CompColumn in MatchesOf(t).Names())) by {
      MatchesOfPicks(t);
    }
  }

  lemma MatchesOfPicks(t: Table)
    requires DateColumn in t.Names()
    ensures PicksRows(MatchesOf(t), t, MatchRows(t, CompColumn in MatchesOf(t).Names()))
  {
    var d := IndexOf(t.Names(), DateColumn);
    var dated := RowsWhere(t, d, Present);
    var idx := PassingRows(t, d, Present);
    var sel := SelectByNames(dated, MatchColumns);
    SelectedPicks(t);
    var picked := DropAllMissing(sel);
    PicksRowsKept(sel, picked, t, idx);
    assert idx == MatchRows(t, false);
    if CompColumn in picked.Names() {
      PicksRowsWhere(picked, t, idx, CompColumn, IsLeagueCell);
    }
  }

  /**
   * `dropna(axis=1, how='all')` on the listed columns of the dated rows keeps those with a
   * value on a dated row; the league filter drops rows, never columns.
   */
  lemma MatchesOfNames(t: Table)
    requires DateColumn in t.Names()
    ensures MatchesOf(t).Names() == MatchNames(t)
  {
    var d := IndexOf(t.Names(), DateColumn);
    var dated := RowsWhere(t, d, Present);
    var idx := PassingRows(t, d, Present);
    var sel := SelectByNames(dated, MatchColumns);
    SelectedPicks(t);
    DatedRows(t);
    assert idx == MatchRows(t, false);
    forall k | 0 <= k < |sel.columns|
      ensures HasValues(sel.columns[k]) == DatedValueIn(t)(ColumnName(sel.columns[k]))
    {
      CutHasValues(ColumnNamed(t, sel.columns[k].name), idx);
    }
    MapFilter(sel.columns, ColumnName, HasValues, DatedValueIn(t));
    FilterNarrow(MatchColumns, n => n in dated.Names(), DatedValueIn(t));
  }

  /** The listed columns of the dated rows are the table's columns cut down to its dated rows. */
  lemma SelectedPicks(t: Table)
    requires DateColumn in t.Names()
    ensures var d := IndexOf(t.Names(), DateColumn);
            PicksRows(SelectByNames(RowsWhere(t, d, Present), MatchColumns), t, PassingRows(t, d, Present))
  {
    var d := IndexOf(t.Names(), DateColumn);
    var dated := RowsWhere(t, d, Present);
    var idx := PassingRows(t, d, Present);
    RowsWhereCut(t, d, Present);
    var sel := SelectByNames(dated, MatchColumns);
    forall k | 0 <= k < |sel.columns|
      ensures sel.columns[k].name in t.Names() && sel.columns[k] == CutTo(ColumnNamed(t, sel.columns[k].name), idx)
    {
      var n := sel.columns[k].name;
      assert IndexOf(dated.Names(), n) == IndexOf(t.Names(), n);
    }
  }

  lemma MatchesOfClean(t: Table)
    requires DateColumn in t.Names()
    ensures MatchesClean(MatchesOf(t), t)
  {
    var dated := RowsWhere(t, IndexOf(t.Names(), DateColumn), Present);
    DatedRows(t);
    var sel := SelectByNames(dated, MatchColumns);
    SelectedMatchColumns(dated, t);
    var picked := DropAllMissing(sel);
    PickedMatchColumns(sel, dated);
    var r := LeagueRows(picked);
    LeagueRowsClean(picked);
  }

  lemma DatedRows(t: Table)
    requires DateColumn in t.Names()
    ensures var dated := RowsWhere(t, IndexOf(t.Names(), DateColumn), Present);
            dated.Names() == t.Names() && AllCells(ColumnNamed(dated, DateColumn), Present)
  {
    RowsWhereAll(t, IndexOf(t.Names(), DateColumn), Present);
  }

  lemma SelectedMatchColumns(dated: Frame, t: Frame)
    requires dated.Valid() && dated.Names() == t.Names() && DateColumn in t.Names()
    requires AllCells(ColumnNamed(dated, DateColumn), Present)
    ensures var sel := SelectByNames(dated, MatchColumns);
            && sel.Names() == Filter(MatchColumns, n => n in t.Names())
            && DateColumn in sel.Names()
            && forall k | 0 <= k < |sel.columns| && sel.columns[k].name == DateColumn :: AllCells(sel.columns[k], Present)
  {
    var sel := SelectByNames(dated, MatchColumns);
    FilterCongruent(MatchColumns, n => n in dated.Names(), n => n in t.Names());
    assert MatchColumns[0] == DateColumn;
  }

  lemma PickedMatchColumns(sel: Frame, dated: Frame)
    requires sel.Valid() && DateColumn in sel.Names()
    requires forall k | 0 <= k < |sel.columns| && sel.columns[k].name == DateColumn :: AllCells(sel.columns[k], Present)
    ensures var picked := DropAllMissing(sel);
            && Subsequence(picked.Names(), sel.Names())
            && (picked.height > 0 ==> DateColumn in picked.Names())
            && (DateColumn in picked.Names() ==> AllCells(ColumnNamed(picked, DateColumn), Present))
  {
    var picked := DropAllMissing(sel);
    SubsequenceMap(picked.columns, sel.columns, ColumnName);
    if picked.height > 0 {
      PickedKeepsDate(sel, picked);
    }
    if DateColumn in picked.Names() {
      PickedDateComplete(sel, picked);
    }
  }

  lemma PickedKeepsDate(sel: Frame, picked: Frame)
    requires sel.Valid() && DateColumn in sel.Names()
    requires forall k | 0 <= k < |sel.columns| && sel.columns[k].name == DateColumn :: AllCells(sel.columns[k], Present)
    requires picked == DropAllMissing(sel) && picked.height > 0
    ensures DateColumn in picked.Names()
  {
    var m := IndexOf(sel.Names(), DateColumn);
    var c := sel.columns[m];
    assert c.name == DateColumn && AllCells(c, Present);
    assert |c.cells| > 0 && Present(c.cells[0]);
    assert HasValues(c);
    assert c in picked.columns;
    NameOfMember(picked, c);
  }

  lemma NameOfMember(f: Frame, c: Column)
    requires c in f.columns
    ensures c.name in f.Names()
  {
    var k :| 0 <= k < |f.columns| && f.columns[k] == c;
    assert f.Names()[k] == c.name;
  }

  lemma PickedDateComplete(sel: Frame, picked: Frame)
    requires sel.Valid()
    requires forall k | 0 <= k < |sel.columns| && sel.columns[k].name == DateColumn :: AllCells(sel.columns[k], Present)
    requires picked == DropAllMissing(sel) && DateColumn in picked.Names()
    ensures AllCells(ColumnNamed(picked, DateColumn), Present)
  {
    var c := ColumnNamed(picked, DateColumn);
    var m :| 0 <= m < |sel.columns| && sel.columns[m] == c;
  }

  lemma LeagueRowsClean(picked: Frame)
    requires picked.Valid()
    requires DateColumn in picked.Names() ==> AllCells(ColumnNamed(picked, DateColumn), Present)
    ensures var r := LeagueRows(picked);
            && (DateColumn in r.Names() ==> AllCells(ColumnNamed(r, DateColumn), Present))
            && (CompColumn in r.Names() ==> AllCells(ColumnNamed(r, CompColumn), IsLeagueCell))
  {
    if CompColumn in picked.Names() {
      var j := IndexOf(picked.Names(), CompColumn);
      RowsWhereAll(picked, j, IsLeagueCell);
      assert IndexOf(RowsWhere(picked, j, IsLeagueCell).Names(), CompColumn) == j;
      if DateColumn in picked.Names() {
        RowsWhereKeeps(picked, j, IsLeagueCell, DateColumn, Present);
      }
    }
  }

  // ---------------------------------------------------------------------------------------
  // Tagging with the team and stacking

  const TeamColumn := "Team"

  /** What the scraper holds for one team: the team's name and one of its two frames. */
  datatype TeamFrame = TeamFrame(team: string, frame: Table)

  /** A team whose frame is not empty. */
  predicate HasData(d: TeamFrame)
  {
    !d.frame.Empty()
  }

  function DataHeight(d: TeamFrame): int
  {
    d.frame.height
  }

  /** `frame.assign(Team=team)`: the team's frame with every row labelled with the team. */
  function TagTeam(d: TeamFrame): (f: Frame)
    ensures f.Valid() && f.height == d.frame.height
    ensures TeamColumn in f.Names() && ColumnNamed(f, TeamColumn).cells == Repeat(Some(d.team), d.frame.height)
  {
    Assign(d.frame, TeamColumn, d.team)
  }

  /**
   * The frames of the teams with data, each tagged with its team, stacked in team order;
   * no frame at all when no team has data.
   */
  function StackTeams(data: seq<TeamFrame>): (r: Frame)
    ensures r.Valid()
    ensures r.height == Sum(Filter(data, HasData), DataHeight)
    ensures r.Names() == AllNames(Map(Filter(data, HasData), TagTeam))
    ensures forall k | 0 <= k < |data| :: HasData(data[k]) ==> TeamColumn in r.Names()
  {
    var kept := Filter(data, HasData);
    var tagged := Map(kept, TagTeam);
    SumMap(kept, TagTeam, Height, DataHeight);
    if |tagged| == 0 then
      assert AllNames(tagged) == [];
      NoFrame
    else
      StackedTeamColumn(data);
      ConcatFrames(tagged)
  }

  /** Once one team has data, the stack has a `Team` column. */
  lemma StackedTeamColumn(data: seq<TeamFrame>)
    requires |Filter(data, HasData)| > 0
    ensures var tagged := Map(Filter(data, HasData), TagTeam);
            forall k | 0 <= k < |data| :: HasData(data[k]) ==> TeamColumn in ConcatFrames(tagged).Names()
  {
    var kept := Filter(data, HasData);
    var tagged := Map(kept, TagTeam);
    var r := ConcatFrames(tagged);
    assert TeamColumn in tagged[0].Names();
  }

  /** Rows `o` to `o + h - 1` of `r` are labelled with `team` in the `Team` column. */
  predicate LabelledBlock(r: Frame, o: int, h: nat, team: string)
  {
    && TeamColumn in r.Names()
    && 0 <= o && o + h <= r.height && o + h <= |ColumnNamed(r, TeamColumn).cells|
    && ColumnNamed(r, TeamColumn).cells[o..o + h] == Repeat(Some(team), h)
  }

  /** What a team's block puts under column `n`: the team in `Team`, the frame's own cells elsewhere. */
  function BlockCells(d: TeamFrame, n: string): seq<Cell>
  {
    if n == TeamColumn then Repeat(Some(d.team), d.frame.height) else CellsFor(d.frame, n)
  }

  /**
   * Rows `o` onward of `r` are the team's frame tagged with its team: in the `Team` column the
   * team's name, in every other column of `r` the frame's own cells, or missing cells where the
   * frame has no such column.
   */
  predicate HoldsBlock(r: Frame, o: int, d: TeamFrame)
  {
    && 0 <= o && o + d.frame.height <= r.height
    && forall n | n in r.Names() :: SliceIs(ColumnNamed(r, n).cells, o, BlockCells(d, n))
  }

  /**
   * The rows a team with data contributes to the stack sit after the rows of the teams with
   * data before it, one per row of its frame, and each is labelled with the team and holds
   * the frame's own cells.
   */
  lemma StackTeamsLabelsRows(data: seq<TeamFrame>, k: nat)
    requires k < |Filter(data, HasData)|
    ensures var kept := Filter(data, HasData);
            var r := StackTeams(data);
            && LabelledBlock(r, Sum(kept[..k], DataHeight), kept[k].frame.height, kept[k].team)
            && HoldsBlock(r, Sum(kept[..k], DataHeight), kept[k])
  {
    StackIsConcat(data);
    TaggedBlocks(Filter(data, HasData), k);
  }

  lemma StackIsConcat(data: seq<TeamFrame>)
    requires |Filter(data, HasData)| > 0
    ensures StackTeams(data) == ConcatFrames(Map(Filter(data, HasData), TagTeam))
  {
  }

  lemma TaggedBlocks(kept: seq<TeamFrame>, k: nat)
    requires k < |kept|
    ensures var r := ConcatFrames(Map(kept, TagTeam));
            && LabelledBlock(r, Sum(kept[..k], DataHeight), kept[k].frame.height, kept[k].team)
            && HoldsBlock(r, Sum(kept[..k], DataHeight), kept[k])
  {
    TaggedBlock(kept, k);
    TaggedHolds(kept, k);
  }

  lemma TaggedHolds(kept: seq<TeamFrame>, k: nat)
    requires k < |kept|
    ensures HoldsBlock(ConcatFrames(Map(kept, TagTeam)), Sum(kept[..k], DataHeight), kept[k])
  {
    var tagged := Map(kept, TagTeam);
    TaggedValid(kept);
    TaggedOffset(kept, k);
    assert tagged[k] == TagTeam(kept[k]);
    StackHolds(tagged, k, kept[k]);
  }

  /** A tagged frame that is part of a stack is a block of it holding its team and its cells. */
  lemma StackHolds(frames: seq<Frame>, k: nat, d: TeamFrame)
    requires forall m | 0 <= m < |frames| :: frames[m].Valid()
    requires k < |frames| && frames[k] == TagTeam(d)
    ensures HoldsBlock(ConcatFrames(frames), Sum(frames[..k], Height), d)
  {
    var r := ConcatFrames(frames);
    assert TeamColumn in frames[k].Names();
    ConcatBlocks(frames, k, TeamColumn);
    forall n | n in r.Names()
      ensures SliceIs(ColumnNamed(r, n).cells, Sum(frames[..k], Height), BlockCells(d, n))
    {
      TaggedCellsFor(d, n);
      StackHoldsAt(frames, k, BlockCells(d, n), n);
    }
  }

  lemma StackHoldsAt(frames: seq<Frame>, k: nat, block: seq<Cell>, n: string)
    requires forall m | 0 <= m < |frames| :: frames[m].Valid()
    requires k < |frames| && n in ConcatFrames(frames).Names() && CellsFor(frames[k], n) == block
    ensures SliceIs(ColumnNamed(ConcatFrames(frames), n).cells, Sum(frames[..k], Height), block)
  {
    ConcatBlocks(frames, k, n);
  }

  /** What a tagged frame puts under each name of a stack: the team in `Team`, its own cells elsewhere. */
  lemma TaggedCellsFor(d: TeamFrame, n: string)
    ensures CellsFor(TagTeam(d), n) == BlockCells(d, n)
  {
    var f := d.frame;
    var r := TagTeam(d);
    if n != TeamColumn && n in f.Names() {
      var j := IndexOf(f.Names(), n);
      if TeamColumn in f.Names() {
        assert r.Names() == f.Names();
      } else {
        assert r.Names() == f.Names() + [TeamColumn];
        IndexOfPrefix(f.Names(), [TeamColumn], n);
      }
      assert IndexOf(r.Names(), n) == j;
      assert f.columns[j].name == n;
    }
  }

  lemma TaggedBlock(kept: seq<TeamFrame>, k: nat)
    requires k < |kept|
    ensures LabelledBlock(ConcatFrames(Map(kept, TagTeam)), Sum(kept[..k], DataHeight), kept[k].frame.height, kept[k].team)
  {
    var tagged := Map(kept, TagTeam);
    assert tagged[k] == TagTeam(kept[k]);
    TaggedCells(kept[k]);
    TaggedValid(kept);
    ConcatLabelled(tagged, k, kept[k].team);
    TaggedOffset(kept, k);
  }

  lemma TaggedValid(kept: seq<TeamFrame>)
    ensures forall m | 0 <= m < |Map(kept, TagTeam)| :: Map(kept, TagTeam)[m].Valid()
  {
  }

  /** A frame whose `Team` column repeats one team is a labelled block of any stack it is part of. */
  lemma ConcatLabelled(frames: seq<Frame>, k: nat, team: string)
    requires forall m | 0 <= m < |frames| :: frames[m].Valid()
    requires k < |frames| && TeamColumn in frames[k].Names()
    requires CellsFor(frames[k], TeamColumn) == Repeat(Some(team), frames[k].height)
    ensures LabelledBlock(ConcatFrames(frames), Sum(frames[..k], Height), frames[k].height, team)
  {
    var r := ConcatFrames(frames);
    assert TeamColumn in r.Names();
    ConcatBlocks(frames, k, TeamColumn);
    BlockLabelled(r, Sum(frames[..k], Height), frames[k].height, CellsFor(frames[k], TeamColumn), team);
  }

  /** A block of a valid frame's `Team` column that repeats one team is a labelled block. */
  lemma BlockLabelled(r: Frame, o: int, h: nat, block: seq<Cell>, team: string)
    requires r.Valid() && TeamColumn in r.Names() && 0 <= o && o + h <= r.height
    requires ColumnNamed(r, TeamColumn).cells[o..o + h] == block && block == Repeat(Some(team), h)
    ensures LabelledBlock(r, o, h, team)
  {
  }

  /** What a tagged frame contributes to the `Team` column of a stack: its team on every row. */
  lemma TaggedCells(d: TeamFrame)
    ensures CellsFor(TagTeam(d), TeamColumn) == Repeat(Some(d.team), d.frame.height)
  {
  }

  lemma TaggedOffset(kept: seq<TeamFrame>, k: nat)
    requires k <= |kept|
    ensures Sum(Map(kept, TagTeam)[..k], Height) == Sum(kept[..k], DataHeight)
  {
    assert Map(kept, TagTeam)[..k] == Map(kept[..k], TagTeam);
    SumMap(kept[..k], TagTeam, Height, DataHeight);
  }

  /** A squad table as the parser returns it, every column one cell per row. */
  type SquadTable = t: RawTable | t.Valid() witness RawTable(0, [])

  /** The tables the parser finds on a team's page: read with a two-row header, and plainly. */
  datatype Page = Page(squadTables: seq<SquadTable>, matchTables: seq<Table>)

  /** The two files the scraper writes: every team's players, and every team's league matches. */
  datatype Season = Season(players: Frame, matches: Frame)

  function PlayerData(names: seq<string>, visit: string -> Page): seq<TeamFrame>
  {
    Map(names, n => TeamFrame(n, ExtractPlayers(visit(n).squadTables)))
  }

  function MatchData(names: seq<string>, visit: string -> Page): seq<TeamFrame>
  {
    Map(names, n => TeamFrame(n, ExtractMatches(visit(n).matchTables)))
  }

  /**
   * The scraper's run over a league page.  `visit` stands for clicking a team's link and
   * parsing the page it opens; each team found once among the links is visited in page
   * order, and its two frames are tagged with its name and stacked.
   */
  function Scrape(links: seq<Link>, visit: string -> Page): (s: Season)
    ensures s.players.Valid() && s.matches.Valid()
    ensures s.players.height == Sum(Filter(PlayerData(TeamNames(links), visit), HasData), DataHeight)
    ensures s.matches.height == Sum(Filter(MatchData(TeamNames(links), visit), HasData), DataHeight)
  {
    var names := TeamNames(links);
    Season(StackTeams(PlayerData(names, visit)), StackTeams(MatchData(names, visit)))
  }

  /** Each team's rows in the players file are the team's cleaned squad rows, all labelled with the team. */
  lemma ScrapeLabelsPlayers(links: seq<Link>, visit: string -> Page, k: nat)
    requires var kept := Filter(PlayerData(TeamNames(links), visit), HasData); k < |kept|
    ensures var kept := Filter(PlayerData(TeamNames(links), visit), HasData);
            var r := Scrape(links, visit).players;
            && kept[k].team in TeamNames(links)
            && PlayersClean(kept[k].frame)
            && LabelledBlock(r, Sum(kept[..k], DataHeight), kept[k].frame.height, kept[k].team)
            && HoldsBlock(r, Sum(kept[..k], DataHeight), kept[k])
  {
    var names := TeamNames(links);
    var data := PlayerData(names, visit);
    var kept := Filter(data, HasData);
    assert Scrape(links, visit).players == StackTeams(data);
    StackTeamsLabelsRows(data, k);
    PlayerDataClean(names, visit);
    assert kept[k] in data;
  }

  /** Every team's players frame is either no frame or a cleaned squad table. */
  lemma PlayerDataClean(names: seq<string>, visit: string -> Page)
    ensures var data := PlayerData(names, visit);
            forall i | 0 <= i < |data| :: data[i].team in names && (HasData(data[i]) ==> PlayersClean(data[i].frame))
  {
    var data := PlayerData(names, visit);
    forall i | 0 <= i < |data|
      ensures data[i].team in names && (HasData(data[i]) ==> PlayersClean(data[i].frame))
    {
      var f := ExtractPlayers(visit(names[i]).squadTables);
      assert data[i] == TeamFrame(names[i], f);
      assert f == NoFrame || PlayersClean(f);
    }
  }
}
