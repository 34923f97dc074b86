/**
 * What the analyses promise about their results: totals that account for every joined
 * line, the standings arithmetic, the team filter acting before grouping, and the meaning
 * of MAX and COUNT(DISTINCT).
 */
module QueryLaws {
  import opened Wrappers
  import opened Seqs
  import opened Sorting
  import opened Text
  import opened Relational
  import opened Store
  import opened Queries

  function PlayerTotalOf(x: PlayerTotal): int { x.total }
  function PlayerTotalTeam(x: PlayerTotal): string { x.nomequipe }
  function DisciplineTeam(x: DisciplineRow): string { x.nomequipe }
  function NationalityTeam(x: NationalityCount): string { x.nomequipe }
  function NombreJoueurs(x: NationalityCount): int { x.nombre_joueurs }
  function TeamTotalOf(x: TeamTotal): int { x.total }
  function TeamTotalTeam(x: TeamTotal): string { x.nomequipe }
  function StandingTeam(x: Standing): string { x.nomequipe }
  function TeamScorerTeam(x: TeamScorer): string { x.nomequipe }

  // ---------------------------------------------------------------------------------------
  // Aggregates account for every line

  /** Grouping neither loses nor double-counts a goal: the per-player totals add up to all goals. */
  lemma ScorerTotalsCoverAllGoals(db: Db, sel: Selection)
    ensures Sum(PlayerRows(db, sel, ScorerRow), PlayerTotalOf) == Sum(PlayerQueryLines(db, sel), Buts)
  {
    GroupTotals(PlayerQueryLines(db, sel), PlayerId, ScorerRow, PlayerTotalOf, Buts);
  }

  /** The decisive totals add up to all goals plus all assists. */
  lemma DecisiveTotalsSplit(db: Db, sel: Selection)
    ensures Sum(PlayerRows(db, sel, DecisiveRow), PlayerTotalOf)
            == Sum(PlayerQueryLines(db, sel), Buts) + Sum(PlayerQueryLines(db, sel), Passes)
  {
    var lines := PlayerQueryLines(db, sel);
    GroupTotals(lines, PlayerId, DecisiveRow, PlayerTotalOf, Decisive);
    SumPointwise(lines, Buts, Passes, Decisive);
  }

  /** The goals-for table lists every goal scored by the selected teams exactly once. */
  lemma TotalGoalsCoverAllGoals(db: Db, sel: Selection)
    ensures Sum(TotalGoals(db, sel), TeamTotalOf) == Sum(ResultQueryLines(db, sel), ButsMarques)
  {
    GroupTotals(ResultQueryLines(db, sel), ResultTeam, GoalsForRow, TeamTotalOf, ButsMarques);
    SumMultiset(TotalGoals(db, sel), TeamRows(db, sel, GoalsForRow), TeamTotalOf);
  }

  /** The defence table lists every goal conceded by the selected teams exactly once. */
  lemma BestDefensesCoverAllGoals(db: Db, sel: Selection)
    ensures Sum(BestDefenses(db, sel), TeamTotalOf) == Sum(ResultQueryLines(db, sel), ButsConcedes)
  {
    GroupTotals(ResultQueryLines(db, sel), ResultTeam, GoalsAgainstRow, TeamTotalOf, ButsConcedes);
    SumMultiset(BestDefenses(db, sel), TeamRows(db, sel, GoalsAgainstRow), TeamTotalOf);
  }

  /** Every joined player is counted under exactly one (team, nationality) row. */
  lemma NationalitiesCountEveryPlayer(db: Db, sel: Selection)
    ensures Sum(Nationalities(db, sel), NombreJoueurs) == |RosterQueryLines(db, sel)|
  {
    var lines := RosterQueryLines(db, sel);
    forall l: RosterLine, g: seq<RosterLine>
      ensures NombreJoueurs(NationalityRow(l, g)) == Sum(g, One)
    {
      SumOfOnes(g, One);
    }
    GroupTotals(lines, TeamAndNationality, NationalityRow, NombreJoueurs, One);
    SumOfOnes(lines, One);
    SumMultiset(Nationalities(db, sel), GroupRows(lines, TeamAndNationality, NationalityRow), NombreJoueurs);
  }

  // ---------------------------------------------------------------------------------------
  // Disciplined players

  /** Each listed player's card total is their yellow cards plus their red cards. */
  lemma DisciplineCardsAddUp(db: Db, sel: Selection)
    ensures var r := MostDisciplined(db, sel);
            forall i | 0 <= i < |r| :: r[i].total_cartons == r[i].jaunes + r[i].rouges
  {
    var rows := PlayerRows(db, sel, DisciplineRowOf);
    DisciplineRowsAddUp(PlayerQueryLines(db, sel));
    TopNInherit(MostDisciplined(db, sel), rows, CartonsAsc, RankingSize, CardsAddUp);
  }

  lemma DisciplineRowsAddUp(lines: seq<PlayerLine>)
    ensures var rows := GroupRows(lines, PlayerId, DisciplineRowOf);
            forall k | 0 <= k < |rows| :: CardsAddUp(rows[k])
  {
    var rows := GroupRows(lines, PlayerId, DisciplineRowOf);
    forall k | 0 <= k < |rows|
      ensures CardsAddUp(rows[k])
    {
      var g := Group(lines, PlayerId, GroupKeys(lines, PlayerId)[k]);
      SumPointwise(g, Jaunes, Rouges, Cartons);
    }
  }

  predicate CardsAddUp(x: DisciplineRow)
  {
    x.total_cartons == x.jaunes + x.rouges
  }

  // ---------------------------------------------------------------------------------------
  // Standings

  predicate KnownOutcome(rm: ResultatMatch)
  {
    rm.resultat == Victoire || rm.resultat == Nul || rm.resultat == Defaite
  }

  /** Every team's points are three per win and one per draw. */
  lemma StandingsPoints(db: Db, sel: Selection)
    ensures var r := Standings(db, sel);
            forall i | 0 <= i < |r| :: r[i].points == 3 * r[i].victoires + r[i].nuls
  {
    var rows := TeamRows(db, sel, StandingRow);
    forall k | 0 <= k < |rows|
      ensures ThreePointsPerWin(rows[k])
    {
    }
    OrderedInherit(Standings(db, sel), rows, PointsDesc, ThreePointsPerWin);
  }

  predicate ThreePointsPerWin(x: Standing)
  {
    x.points == 3 * x.victoires + x.nuls
  }

  /** Over lines whose outcomes are all known, a team's wins, draws and losses count its lines. */
  lemma StandingRowsCount(lines: seq<ResultLine>)
    requires forall n | 0 <= n < |lines| :: KnownOutcome(lines[n].rm)
    ensures var rows := GroupRows(lines, ResultTeam, StandingRow);
            forall k | 0 <= k < |rows| ::
              rows[k].victoires + rows[k].nuls + rows[k].defaites
              == |Filter(lines, Is(ResultTeam, rows[k].nomequipe))|
  {
    var rows := GroupRows(lines, ResultTeam, StandingRow);
    forall k | 0 <= k < |rows|
      ensures rows[k].victoires + rows[k].nuls + rows[k].defaites
              == |Filter(lines, Is(ResultTeam, rows[k].nomequipe))|
    {
      var key := GroupKeys(lines, ResultTeam)[k];
      var g := Group(lines, ResultTeam, key);
      assert rows[k] == StandingRow(g[0], g);
      forall n | 0 <= n < |g|
        ensures KnownOutcome(g[n].rm)
      {
        assert g[n] in lines;
      }
      StandingOfGroup(g);
    }
  }

  /** Each line of a group with known outcomes is a win, a draw or a loss, never two of them. */
  lemma StandingOfGroup(g: seq<ResultLine>)
    requires |g| > 0
    requires forall n | 0 <= n < |g| :: KnownOutcome(g[n].rm)
    ensures var x := StandingRow(g[0], g); x.victoires + x.nuls + x.defaites == |g|
  {
    CountPartition(g, Is(Outcome, Victoire), Is(Outcome, Nul), Is(Outcome, Defaite));
  }

  /**
   * When every stored result is a win, a draw or a loss, each team's wins, draws and losses
   * add up to the number of result rows the team has among the selected lines.
   */
  lemma StandingsCountEveryResult(db: Db, sel: Selection)
    requires forall m | 0 <= m < |db.resultatmatch| :: KnownOutcome(db.resultatmatch[m])
    ensures var r := Standings(db, sel);
            forall i | 0 <= i < |r| ::
              r[i].victoires + r[i].nuls + r[i].defaites
              == |Filter(ResultQueryLines(db, sel), Is(ResultTeam, r[i].nomequipe))|
  {
    var lines := ResultQueryLines(db, sel);
    var rows := TeamRows(db, sel, StandingRow);
    var r := Standings(db, sel);
    SelectedOutcomesKnown(db, sel);
    StandingRowsCount(lines);
    OrderedInherit(r, rows, PointsDesc, x => CountsLines(lines, x));
  }

  predicate CountsLines(lines: seq<ResultLine>, x: Standing)
  {
    x.victoires + x.nuls + x.defaites == |Filter(lines, Is(ResultTeam, x.nomequipe))|
  }

  lemma SelectedOutcomesKnown(db: Db, sel: Selection)
    requires forall m | 0 <= m < |db.resultatmatch| :: KnownOutcome(db.resultatmatch[m])
    ensures var lines := ResultQueryLines(db, sel);
            forall n | 0 <= n < |lines| :: KnownOutcome(lines[n].rm)
  {
    var all := ResultLines(db);
    var lines := ResultQueryLines(db, sel);
    forall n | 0 <= n < |lines|
      ensures KnownOutcome(lines[n].rm)
    {
      assert lines[n] in all;
      var a :| 0 <= a < |all| && all[a] == lines[n];
      var m :| 0 <= m < |db.resultatmatch| && db.resultatmatch[m] == all[a].rm;
    }
  }

  // ---------------------------------------------------------------------------------------
  // The team filter acts before grouping

  function Self(s: string): string { s }

  /**
   * For an analysis grouped by team alone, selecting team `t` returns at most one row: the
   * `t` row of the all-teams result, when there is one.
   */
  lemma TeamKeyedFilter<R(!new)>(lines: seq<ResultLine>, row: (ResultLine, seq<ResultLine>) -> R,
                                 rowTeam: R -> string, le: (R, R) -> bool, t: string)
    requires TotalPreorder(le)
    requires forall l, g :: rowTeam(row(l, g)) == ResultTeam(l)
    ensures Sort(GroupRows(Filter(lines, Is(ResultTeam, t)), ResultTeam, row), le)
            == Filter(Sort(GroupRows(lines, ResultTeam, row), le), Is(rowTeam, t))
    ensures |Sort(GroupRows(Filter(lines, Is(ResultTeam, t)), ResultTeam, row), le)| <= 1
  {
    var kept := Filter(lines, Is(ResultTeam, t));
    var mine := GroupRows(kept, ResultTeam, row);
    var all := GroupRows(lines, ResultTeam, row);
    FilterBeforeGroupRows(lines, ResultTeam, ResultTeam, Self, row, rowTeam, t);
    SingleKey(kept, ResultTeam, row, t);
    ShortMultisetEqual(mine, Sort(mine, le));
    FilterMultiset(Sort(all, le), all, Is(rowTeam, t));
    ShortMultisetEqual(mine, Filter(Sort(all, le), Is(rowTeam, t)));
  }

  /** A selected team that has result lines gets a row. */
  lemma TeamKeyedHasRow<R(!new)>(lines: seq<ResultLine>, row: (ResultLine, seq<ResultLine>) -> R,
                                 le: (R, R) -> bool, t: string, n: nat)
    requires TotalPreorder(le)
    requires n < |lines| && ResultTeam(lines[n]) == t
    ensures |Sort(GroupRows(Filter(lines, Is(ResultTeam, t)), ResultTeam, row), le)| >= 1
  {
    var kept := Filter(lines, Is(ResultTeam, t));
    assert lines[n] in kept;
    assert ResultTeam(kept[0]) in GroupKeys(kept, ResultTeam);
    var mine := GroupRows(kept, ResultTeam, row);
    var r := Sort(mine, le);
    assert |r| == |multiset(r)| == |multiset(mine)| == |mine|;
  }

  /** Filtering the goal totals on a team with results gives exactly one row. */
  lemma TotalGoalsOfTeamWithResults(db: Db, t: string, n: nat)
    requires n < |ResultLines(db)| && ResultTeam(ResultLines(db)[n]) == t
    ensures |TotalGoals(db, Team(t))| == 1
  {
    TotalGoalsOfTeam(db, t);
    TeamKeyedHasRow(ResultLines(db), GoalsForRow, TeamTotalDesc, t, n);
  }

  lemma TotalGoalsOfTeam(db: Db, t: string)
    ensures TotalGoals(db, Team(t)) == Filter(TotalGoals(db, AllTeams), Is(TeamTotalTeam, t))
    ensures |TotalGoals(db, Team(t))| <= 1
  {
    TeamKeyedFilter(ResultLines(db), GoalsForRow, TeamTotalTeam, TeamTotalDesc, t);
  }

  lemma StandingsOfTeam(db: Db, t: string)
    ensures Standings(db, Team(t)) == Filter(Standings(db, AllTeams), Is(StandingTeam, t))
    ensures |Standings(db, Team(t))| <= 1
  {
    TeamKeyedFilter(ResultLines(db), StandingRow, StandingTeam, PointsDesc, t);
  }

  lemma BestDefensesOfTeam(db: Db, t: string)
    ensures BestDefenses(db, Team(t)) == Filter(BestDefenses(db, AllTeams), Is(TeamTotalTeam, t))
    ensures |BestDefenses(db, Team(t))| <= 1
  {
    TeamKeyedFilter(ResultLines(db), GoalsAgainstRow, TeamTotalTeam, TeamTotalAsc, t);
  }

  lemma MatchesPlayedOfTeam(db: Db, t: string)
    ensures MatchesPlayed(db, Team(t)) == Filter(MatchesPlayed(db, AllTeams), Is(TeamTotalTeam, t))
    ensures |MatchesPlayed(db, Team(t))| <= 1
  {
    TeamKeyedFilter(ResultLines(db), MatchesRow, TeamTotalTeam, TeamTotalDesc, t);
  }

  /**
   * For an analysis grouped by team and one more column, selecting team `t` returns, in an
   * admissible order, exactly the `t` rows of the all-teams result.
   */
  lemma PairKeyedFilter<L, V, R(!new)>(lines: seq<L>, team: L -> string, key: L -> (string, V),
                                          row: (L, seq<L>) -> R, rowTeam: R -> string,
                                          le: (R, R) -> bool, t: string)
    requires TotalPreorder(le)
    requires forall i | 0 <= i < |lines| :: team(lines[i]) == key(lines[i]).0
    requires forall l, g :: rowTeam(row(l, g)) == team(l)
    ensures var r := Sort(GroupRows(Filter(lines, Is(team, t)), key, row), le);
            && IsOrdered(r, Filter(Sort(GroupRows(lines, key, row), le), Is(rowTeam, t)), le)
            && forall i | 0 <= i < |r| :: rowTeam(r[i]) == t
  {
    var proj := (k: (string, V)) => k.0;
    forall l, g | l in lines
      ensures rowTeam(row(l, g)) == proj(key(l))
    {
      var i :| 0 <= i < |lines| && lines[i] == l;
    }
    FilterBeforeGroupRows(lines, key, team, proj, row, rowTeam, t);
    var all := GroupRows(lines, key, row);
    var mine := GroupRows(Filter(lines, Is(team, t)), key, row);
    var r := Sort(mine, le);
    FilterMultiset(Sort(all, le), all, Is(rowTeam, t));
    forall i | 0 <= i < |r|
      ensures rowTeam(r[i]) == t
    {
      assert r[i] in multiset(mine);
    }
  }

  lemma NationalitiesOfTeam(db: Db, t: string)
    ensures IsOrdered(Nationalities(db, Team(t)), Filter(Nationalities(db, AllTeams), Is(NationalityTeam, t)),
                      TeamThenCountDesc)
    ensures forall i | 0 <= i < |Nationalities(db, Team(t))| :: Nationalities(db, Team(t))[i].nomequipe == t
  {
    var lines := RosterLines(db);
    assert RosterQueryLines(db, Team(t)) == Filter(lines, Is(RosterTeam, t));
    assert RosterQueryLines(db, AllTeams) == lines;
    TeamFirstOrder();
    PairKeyedFilter(lines, RosterTeam, TeamAndNationality, NationalityRow, NationalityTeam, TeamThenCountDesc, t);
  }

  lemma TopScorerPerTeamOfTeam(db: Db, t: string)
    ensures IsOrdered(TopScorerPerTeam(db, Team(t)), Filter(TopScorerPerTeam(db, AllTeams), Is(TeamScorerTeam, t)),
                      TeamThenMaxDesc)
    ensures forall i | 0 <= i < |TopScorerPerTeam(db, Team(t))| :: TopScorerPerTeam(db, Team(t))[i].nomequipe == t
  {
    var lines := PlayerLines(db);
    assert PlayerQueryLines(db, Team(t)) == Filter(lines, Is(PlayerTeam, t));
    assert PlayerQueryLines(db, AllTeams) == lines;
    TeamFirstOrder();
    PairKeyedFilter(lines, PlayerTeam, TeamAndPlayer, TeamScorerRow, TeamScorerTeam, TeamThenMaxDesc, t);
  }

  /** The team on the first line of player `k`, or "" when `k` has no line. */
  function FirstTeamOf(lines: seq<PlayerLine>, k: int): string
  {
    var ids := Map(lines, PlayerId);
    if k in ids then PlayerTeam(lines[IndexOf(ids, k)]) else ""
  }

  /** Under the primary keys, every line of a player carries the team of the player's first line. */
  lemma FirstTeamIsTeam(db: Db)
    requires PrimaryKeys(db)
    ensures var lines := PlayerLines(db);
            forall i | 0 <= i < |lines| :: PlayerTeam(lines[i]) == FirstTeamOf(lines, PlayerId(lines[i]))
  {
    var lines := PlayerLines(db);
    var ids := Map(lines, PlayerId);
    PlayerFixesTeam(db);
    forall i | 0 <= i < |lines|
      ensures PlayerTeam(lines[i]) == FirstTeamOf(lines, PlayerId(lines[i]))
    {
      assert ids[i] == PlayerId(lines[i]);
      var j := IndexOf(ids, PlayerId(lines[i]));
      assert lines[j].j.idjoueur == lines[i].j.idjoueur;
    }
  }

  /**
   * Grouping by player commutes with the team filter when the primary keys hold: a player
   * row's team is that of the player's first line, and every line of the player has it.
   */
  lemma PlayerRowsOfTeam<R>(db: Db, t: string, row: (PlayerLine, seq<PlayerLine>) -> R, rowTeam: R -> string)
    requires PrimaryKeys(db)
    requires forall l, g :: rowTeam(row(l, g)) == PlayerTeam(l)
    ensures PlayerRows(db, Team(t), row) == Filter(PlayerRows(db, AllTeams, row), Is(rowTeam, t))
  {
    var lines := PlayerLines(db);
    var proj := (k: int) => FirstTeamOf(lines, k);
    FirstTeamIsTeam(db);
    forall l, g | l in lines
      ensures rowTeam(row(l, g)) == proj(PlayerId(l))
    {
      var i :| 0 <= i < |lines| && lines[i] == l;
    }
    assert PlayerQueryLines(db, Team(t)) == Filter(lines, Is(PlayerTeam, t));
    FilterBeforeGroupRows(lines, PlayerId, PlayerTeam, proj, row, rowTeam, t);
  }

  /** With a team selected, the top scorers are the best ten of that team's players, totals over all their lines. */
  lemma TopScorersOfTeam(db: Db, t: string)
    requires PrimaryKeys(db)
    ensures IsTopN(TopScorers(db, Team(t)), Filter(PlayerRows(db, AllTeams, ScorerRow), Is(PlayerTotalTeam, t)),
                   TotalDesc, RankingSize)
  {
    PlayerRowsOfTeam(db, t, ScorerRow, PlayerTotalTeam);
  }

  lemma MostDecisiveOfTeam(db: Db, t: string)
    requires PrimaryKeys(db)
    ensures IsTopN(MostDecisive(db, Team(t)), Filter(PlayerRows(db, AllTeams, DecisiveRow), Is(PlayerTotalTeam, t)),
                   TotalDesc, RankingSize)
  {
    PlayerRowsOfTeam(db, t, DecisiveRow, PlayerTotalTeam);
  }

  lemma MostDisciplinedOfTeam(db: Db, t: string)
    requires PrimaryKeys(db)
    ensures IsTopN(MostDisciplined(db, Team(t)),
                   Filter(PlayerRows(db, AllTeams, DisciplineRowOf), Is(DisciplineTeam, t)), CartonsAsc, RankingSize)
  {
    PlayerRowsOfTeam(db, t, DisciplineRowOf, DisciplineTeam);
  }

  /** A ranking of the lines of team `t` lists only players of team `t`. */
  lemma RankingOfTeamOnly<R>(db: Db, t: string, row: (PlayerLine, seq<PlayerLine>) -> R, rowTeam: R -> string,
                             le: (R, R) -> bool, r: seq<R>)
    requires forall l, g :: rowTeam(row(l, g)) == PlayerTeam(l)
    requires IsTopN(r, PlayerRows(db, Team(t), row), le, RankingSize)
    ensures forall i | 0 <= i < |r| :: rowTeam(r[i]) == t
  {
    var lines := PlayerQueryLines(db, Team(t));
    assert forall i | 0 <= i < |lines| :: Is(PlayerTeam, t)(lines[i]);
    RowsInherit(lines, PlayerId, row, Is(PlayerTeam, t), Is(rowTeam, t));
    TopNInherit(r, PlayerRows(db, Team(t), row), le, RankingSize, Is(rowTeam, t));
  }

  /** With a team selected, every player the top scorers list plays for that team. */
  lemma TopScorersOfTeamOnly(db: Db, t: string)
    ensures forall i | 0 <= i < |TopScorers(db, Team(t))| :: TopScorers(db, Team(t))[i].nomequipe == t
  {
    RankingOfTeamOnly(db, t, ScorerRow, PlayerTotalTeam, TotalDesc, TopScorers(db, Team(t)));
  }

  lemma MostDecisiveOfTeamOnly(db: Db, t: string)
    ensures forall i | 0 <= i < |MostDecisive(db, Team(t))| :: MostDecisive(db, Team(t))[i].nomequipe == t
  {
    RankingOfTeamOnly(db, t, DecisiveRow, PlayerTotalTeam, TotalDesc, MostDecisive(db, Team(t)));
  }

  lemma MostDisciplinedOfTeamOnly(db: Db, t: string)
    ensures forall i | 0 <= i < |MostDisciplined(db, Team(t))| :: MostDisciplined(db, Team(t))[i].nomequipe == t
  {
    RankingOfTeamOnly(db, t, DisciplineRowOf, DisciplineTeam, CartonsAsc, MostDisciplined(db, Team(t)));
  }

  // ---------------------------------------------------------------------------------------
  // MAX and COUNT(DISTINCT)

  /**
   * `x` carries the largest goal count among the lines with its team and player name, and
   * some such line has exactly that count.
   */
  predicate IsGroupMax(lines: seq<PlayerLine>, x: TeamScorer)
  {
    && (forall n | 0 <= n < |lines| && TeamAndPlayer(lines[n]) == (x.nomequipe, x.nomjoueur) ::
          lines[n].sj.buts <= x.max_buts)
    && (exists n :: 0 <= n < |lines| && TeamAndPlayer(lines[n]) == (x.nomequipe, x.nomjoueur) &&
          lines[n].sj.buts == x.max_buts)
  }

  /** Each (team, player) row of "Meilleurs buteurs par équipe" is the MAX over its lines. */
  lemma TopScorerPerTeamIsMax(db: Db, sel: Selection)
    ensures var r := TopScorerPerTeam(db, sel);
            forall i | 0 <= i < |r| :: IsGroupMax(PlayerQueryLines(db, sel), r[i])
  {
    var lines := PlayerQueryLines(db, sel);
    var rows := GroupRows(lines, TeamAndPlayer, TeamScorerRow);
    forall k | 0 <= k < |rows|
      ensures IsGroupMax(lines, rows[k])
    {
      GroupMax(lines, k);
    }
    OrderedInherit(TopScorerPerTeam(db, sel), rows, TeamThenMaxDesc, x => IsGroupMax(lines, x));
  }

  lemma GroupMax(lines: seq<PlayerLine>, k: nat)
    requires k < |GroupRows(lines, TeamAndPlayer, TeamScorerRow)|
    ensures IsGroupMax(lines, GroupRows(lines, TeamAndPlayer, TeamScorerRow)[k])
  {
    var key := GroupKeys(lines, TeamAndPlayer)[k];
    var g := Group(lines, TeamAndPlayer, key);
    assert GroupRows(lines, TeamAndPlayer, TeamScorerRow)[k] == TeamScorerRow(g[0], g);
    MaxOfGroup(lines, key);
  }

  /** The row of one (team, player) group holds the largest goal count among the group's lines. */
  lemma MaxOfGroup(lines: seq<PlayerLine>, key: (string, string))
    requires |Group(lines, TeamAndPlayer, key)| > 0
    ensures var g := Group(lines, TeamAndPlayer, key);
            IsGroupMax(lines, TeamScorerRow(g[0], g))
  {
    var g := Group(lines, TeamAndPlayer, key);
    var x := TeamScorerRow(g[0], g);
    assert TeamAndPlayer(g[0]) == key == (x.nomequipe, x.nomjoueur);
    forall n | 0 <= n < |lines| && TeamAndPlayer(lines[n]) == key
      ensures lines[n].sj.buts <= x.max_buts
    {
      var m :| 0 <= m < |g| && g[m] == lines[n];
      assert Buts(g[m]) <= x.max_buts;
    }
    var w := g[0];
    if x.max_buts != Buts(g[0]) {
      var i :| 0 <= i < |g| && Buts(g[i]) == x.max_buts;
      w := g[i];
    }
    assert w in g && TeamAndPlayer(w) == key;
    var n :| 0 <= n < |lines| && lines[n] == w;
  }

  /** The different match ids of team `t`'s result lines. */
  ghost function MatchIdsOf(lines: seq<ResultLine>, t: string): set<int>
  {
    set n | 0 <= n < |lines| && ResultTeam(lines[n]) == t :: lines[n].rm.idmatch
  }

  /**
   * `x` counts the different matches of its team among `lines`: at least one, and never more
   * than the team's number of result lines.
   */
  ghost predicate CountsDistinctMatches(lines: seq<ResultLine>, x: TeamTotal)
  {
    && x.total == |MatchIdsOf(lines, x.nomequipe)|
    && 1 <= x.total <= |Filter(lines, Is(ResultTeam, x.nomequipe))|
  }

  /** "Nombre total de matchs joués par équipe" counts each team's distinct matches. */
  lemma MatchesPlayedCountsMatches(db: Db, sel: Selection)
    ensures var r := MatchesPlayed(db, sel);
            forall i | 0 <= i < |r| :: CountsDistinctMatches(ResultQueryLines(db, sel), r[i])
  {
    var lines := ResultQueryLines(db, sel);
    var rows := TeamRows(db, sel, MatchesRow);
    forall k | 0 <= k < |rows|
      ensures CountsDistinctMatches(lines, rows[k])
    {
      GroupMatches(lines, k);
    }
    OrderedInherit(MatchesPlayed(db, sel), rows, TeamTotalDesc, x => CountsDistinctMatches(lines, x));
  }

  lemma GroupMatches(lines: seq<ResultLine>, k: nat)
    requires k < |GroupRows(lines, ResultTeam, MatchesRow)|
    ensures CountsDistinctMatches(lines, GroupRows(lines, ResultTeam, MatchesRow)[k])
  {
    var x := GroupRows(lines, ResultTeam, MatchesRow)[k];
    var key := GroupKeys(lines, ResultTeam)[k];
    var g := Group(lines, ResultTeam, key);
    var ids := Map(g, MatchId);
    assert x == MatchesRow(g[0], g);
    DistinctCardinality(ids);
    GroupMatchIds(lines, key);
    assert ids[0] in Distinct(ids);
  }

  /** The match ids of a team's group are exactly the team's match ids. */
  lemma GroupMatchIds(lines: seq<ResultLine>, key: string)
    ensures (set y | y in Map(Group(lines, ResultTeam, key), MatchId)) == MatchIdsOf(lines, key)
  {
    var g := Group(lines, ResultTeam, key);
    var ids := Map(g, MatchId);
    forall y | y in ids
      ensures y in MatchIdsOf(lines, key)
    {
      var m :| 0 <= m < |ids| && ids[m] == y;
      assert g[m] in lines;
      var n :| 0 <= n < |lines| && lines[n] == g[m];
    }
    forall n | 0 <= n < |lines| && ResultTeam(lines[n]) == key
      ensures lines[n].rm.idmatch in ids
    {
      var m :| 0 <= m < |g| && g[m] == lines[n];
      assert ids[m] == lines[n].rm.idmatch;
    }
  }
}
