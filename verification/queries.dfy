/**
 * What each analysis of the dashboard returns, as a function of the four tables and the
 * team selected in the sidebar.  Each meaning follows its SQL text clause by clause: the
 * joins of `Store`, the WHERE clause (`Where`, before any grouping), GROUP BY (`GroupRows`),
 * the aggregates over each group, ORDER BY (`Sort`, one of the admissible orders) and
 * LIMIT (`SortLimit`).
 */
module Queries {
  import opened Wrappers
  import opened Seqs
  import opened Sorting
  import opened Text
  import opened Relational
  import opened Store

  /** The LIMIT of the three player rankings. */
  const RankingSize: nat := 10

  const Victoire := "Victoire"
  const Nul := "Nul"
  const Defaite := "D\U{e9}faite"

  // ---------------------------------------------------------------------------------------
  // Result rows, one datatype per column list of the SELECT clauses

  /** `nomjoueur, position, nationalite, nomequipe` and one ranked total. */
  datatype PlayerTotal = PlayerTotal(nomjoueur: string, position: Option<string>, nationalite: Option<string>,
                                     nomequipe: string, total: int)

  datatype DisciplineRow = DisciplineRow(nomjoueur: string, position: Option<string>, nationalite: Option<string>,
                                         nomequipe: string, total_cartons: int, jaunes: int, rouges: int)

  datatype NationalityCount = NationalityCount(nomequipe: string, nationalite: Option<string>, nombre_joueurs: int)

  /** `nomequipe` and one per-team total. */
  datatype TeamTotal = TeamTotal(nomequipe: string, total: int)

  datatype Standing = Standing(nomequipe: string, victoires: int, nuls: int, defaites: int, points: int)

  datatype TeamScorer = TeamScorer(nomequipe: string, nomjoueur: string, max_buts: int)

  // ---------------------------------------------------------------------------------------
  // Columns of the joined lines

  function PlayerId(l: PlayerLine): int { l.j.idjoueur }
  function Buts(l: PlayerLine): int { l.sj.buts }
  function Passes(l: PlayerLine): int { l.sj.passesdecisives }
  function Decisive(l: PlayerLine): int { l.sj.buts + l.sj.passesdecisives }
  function Jaunes(l: PlayerLine): int { l.sj.cartonsjaunes }
  function Rouges(l: PlayerLine): int { l.sj.cartonsrouges }
  function Cartons(l: PlayerLine): int { l.sj.cartonsjaunes + l.sj.cartonsrouges }
  function TeamAndPlayer(l: PlayerLine): (string, string) { (l.e.nomequipe, l.j.nomjoueur) }

  function TeamAndNationality(l: RosterLine): (string, Option<string>) { (l.e.nomequipe, l.j.nationalite) }

  function ButsMarques(l: ResultLine): int { l.rm.butsmarques }
  function ButsConcedes(l: ResultLine): int { l.rm.butsconcedes }
  function MatchId(l: ResultLine): int { l.rm.idmatch }
  function Outcome(l: ResultLine): string { l.rm.resultat }

  function One<T>(x: T): int { 1 }

  // ---------------------------------------------------------------------------------------
  // FROM ... WHERE ... GROUP BY

  /** The player/stat/team lines the WHERE clause keeps. */
  function PlayerQueryLines(db: Db, sel: Selection): seq<PlayerLine>
  {
    Where(PlayerLines(db), PlayerTeam, sel)
  }

  function RosterQueryLines(db: Db, sel: Selection): seq<RosterLine>
  {
    Where(RosterLines(db), RosterTeam, sel)
  }

  function ResultQueryLines(db: Db, sel: Selection): seq<ResultLine>
  {
    Where(ResultLines(db), ResultTeam, sel)
  }

  /** GROUP BY j.idjoueur: one row per player. */
  function PlayerRows<R>(db: Db, sel: Selection, row: (PlayerLine, seq<PlayerLine>) -> R): seq<R>
  {
    GroupRows(PlayerQueryLines(db, sel), PlayerId, row)
  }

  /** GROUP BY e.nomequipe over the team/result lines: one row per team. */
  function TeamRows<R>(db: Db, sel: Selection, row: (ResultLine, seq<ResultLine>) -> R): seq<R>
  {
    GroupRows(ResultQueryLines(db, sel), ResultTeam, row)
  }

  // ---------------------------------------------------------------------------------------
  // SELECT lists: a row from a group's first line and the whole group

  function ScorerRow(first: PlayerLine, g: seq<PlayerLine>): PlayerTotal
  {
    PlayerTotal(first.j.nomjoueur, first.j.position, first.j.nationalite, first.e.nomequipe, Sum(g, Buts))
  }

  function DecisiveRow(first: PlayerLine, g: seq<PlayerLine>): PlayerTotal
  {
    PlayerTotal(first.j.nomjoueur, first.j.position, first.j.nationalite, first.e.nomequipe, Sum(g, Decisive))
  }

  function DisciplineRowOf(first: PlayerLine, g: seq<PlayerLine>): DisciplineRow
  {
    DisciplineRow(first.j.nomjoueur, first.j.position, first.j.nationalite, first.e.nomequipe,
                  Sum(g, Cartons), Sum(g, Jaunes), Sum(g, Rouges))
  }

  function NationalityRow(first: RosterLine, g: seq<RosterLine>): NationalityCount
  {
    NationalityCount(first.e.nomequipe, first.j.nationalite, |g|)
  }

  function GoalsForRow(first: ResultLine, g: seq<ResultLine>): TeamTotal
  {
    TeamTotal(first.e.nomequipe, Sum(g, ButsMarques))
  }

  function GoalsAgainstRow(first: ResultLine, g: seq<ResultLine>): TeamTotal
  {
    TeamTotal(first.e.nomequipe, Sum(g, ButsConcedes))
  }

  /** COUNT(CASE WHEN rm.resultat = ... THEN 1 END) for the three outcomes, and the points. */
  function StandingRow(first: ResultLine, g: seq<ResultLine>): Standing
  {
    var v := Count(g, Is(Outcome, Victoire));
    var n := Count(g, Is(Outcome, Nul));
    var d := Count(g, Is(Outcome, Defaite));
    Standing(first.e.nomequipe, v, n, d, v * 3 + n)
  }

  function TeamScorerRow(first: PlayerLine, g: seq<PlayerLine>): TeamScorer
  {
    TeamScorer(first.e.nomequipe, first.j.nomjoueur, MaxFrom(first, g, Buts))
  }

  /** COUNT(DISTINCT rm.idmatch). */
  function MatchesRow(first: ResultLine, g: seq<ResultLine>): TeamTotal
  {
    TeamTotal(first.e.nomequipe, |Distinct(Map(g, MatchId))|)
  }

  // ---------------------------------------------------------------------------------------
  // ORDER BY comparators: `le(a, b)` holds when `a` may be listed before `b`

  predicate TotalDesc(a: PlayerTotal, b: PlayerTotal) { a.total >= b.total }
  predicate CartonsAsc(a: DisciplineRow, b: DisciplineRow) { a.total_cartons <= b.total_cartons }
  predicate TeamTotalDesc(a: TeamTotal, b: TeamTotal) { a.total >= b.total }
  predicate TeamTotalAsc(a: TeamTotal, b: TeamTotal) { a.total <= b.total }
  predicate PointsDesc(a: Standing, b: Standing) { a.points >= b.points }

  /** ORDER BY e.nomequipe, nombre_joueurs DESC. */
  predicate TeamThenCountDesc(a: NationalityCount, b: NationalityCount)
  {
    LexLt(a.nomequipe, b.nomequipe) || (a.nomequipe == b.nomequipe && a.nombre_joueurs >= b.nombre_joueurs)
  }

  /** ORDER BY e.nomequipe, max_buts DESC. */
  predicate TeamThenMaxDesc(a: TeamScorer, b: TeamScorer)
  {
    LexLt(a.nomequipe, b.nomequipe) || (a.nomequipe == b.nomequipe && a.max_buts >= b.max_buts)
  }

  /** Ordering on one number, up or down, is a total preorder. */
  lemma RankingOrders()
    ensures TotalPreorder(TotalDesc) && TotalPreorder(CartonsAsc)
    ensures TotalPreorder(TeamTotalDesc) && TotalPreorder(TeamTotalAsc) && TotalPreorder(PointsDesc)
  {
  }

  /** Ordering by team name first, then by a total preorder, is a total preorder. */
  lemma TeamFirstOrder()
    ensures TotalPreorder(TeamThenCountDesc)
    ensures TotalPreorder(TeamThenMaxDesc)
  {
    LexLeOrder();
  }

  // ---------------------------------------------------------------------------------------
  // The nine analyses

  /** "Top 10 des meilleurs buteurs": SUM(sj.buts) per player, ORDER BY total_buts DESC LIMIT 10. */
  function TopScorers(db: Db, sel: Selection): (r: seq<PlayerTotal>)
    ensures IsTopN(r, PlayerRows(db, sel, ScorerRow), TotalDesc, RankingSize)
    ensures |r| <= RankingSize
    ensures forall i, j | 0 <= i < j < |r| :: r[i].total >= r[j].total
  {
    var rows := PlayerRows(db, sel, ScorerRow);
    RankingOrders();
    var r := SortLimit(rows, TotalDesc, RankingSize);
    TopNShape(r, rows, TotalDesc, RankingSize);
    r
  }

  /** "Joueurs les plus décisifs": SUM(buts + passes) per player, DESC, LIMIT 10. */
  function MostDecisive(db: Db, sel: Selection): (r: seq<PlayerTotal>)
    ensures IsTopN(r, PlayerRows(db, sel, DecisiveRow), TotalDesc, RankingSize)
    ensures |r| <= RankingSize
    ensures forall i, j | 0 <= i < j < |r| :: r[i].total >= r[j].total
  {
    var rows := PlayerRows(db, sel, DecisiveRow);
    RankingOrders();
    var r := SortLimit(rows, TotalDesc, RankingSize);
    TopNShape(r, rows, TotalDesc, RankingSize);
    r
  }

  /** "Joueurs les plus disciplinés": card totals per player, ORDER BY total_cartons ASC LIMIT 10. */
  function MostDisciplined(db: Db, sel: Selection): (r: seq<DisciplineRow>)
    ensures IsTopN(r, PlayerRows(db, sel, DisciplineRowOf), CartonsAsc, RankingSize)
    ensures |r| <= RankingSize
    ensures forall i, j | 0 <= i < j < |r| :: r[i].total_cartons <= r[j].total_cartons
  {
    var rows := PlayerRows(db, sel, DisciplineRowOf);
    RankingOrders();
    var r := SortLimit(rows, CartonsAsc, RankingSize);
    TopNShape(r, rows, CartonsAsc, RankingSize);
    r
  }

  /** "Répartition des nationalités par équipe": COUNT(*) per (team, nationality). */
  function Nationalities(db: Db, sel: Selection): (r: seq<NationalityCount>)
    ensures IsOrdered(r, GroupRows(RosterQueryLines(db, sel), TeamAndNationality, NationalityRow), TeamThenCountDesc)
    ensures forall i, j | 0 <= i < j < |r| ::
              LexLe(r[i].nomequipe, r[j].nomequipe) &&
              (r[i].nomequipe == r[j].nomequipe ==> r[i].nombre_joueurs >= r[j].nombre_joueurs)
  {
    TeamFirstOrder();
    var r := Sort(GroupRows(RosterQueryLines(db, sel), TeamAndNationality, NationalityRow), TeamThenCountDesc);
    CountsByTeam(r);
    r
  }

  /** Ordered by team first, the rows list the teams in name order. */
  lemma CountsByTeam(r: seq<NationalityCount>)
    requires SortedBy(r, TeamThenCountDesc)
    ensures forall i, j | 0 <= i < j < |r| ::
              LexLe(r[i].nomequipe, r[j].nomequipe) &&
              (r[i].nomequipe == r[j].nomequipe ==> r[i].nombre_joueurs >= r[j].nombre_joueurs)
  {
    forall i, j | 0 <= i < j < |r|
      ensures LexLe(r[i].nomequipe, r[j].nomequipe)
    {
      assert TeamThenCountDesc(r[i], r[j]);
      LexLeReflexive(r[i].nomequipe);
    }
  }

  /** "Nombre total de buts par équipe": SUM(rm.butsmarques) per team, DESC. */
  function TotalGoals(db: Db, sel: Selection): (r: seq<TeamTotal>)
    ensures IsOrdered(r, TeamRows(db, sel, GoalsForRow), TeamTotalDesc)
    ensures forall i, j | 0 <= i < j < |r| :: r[i].total >= r[j].total
  {
    RankingOrders();
    var r := Sort(TeamRows(db, sel, GoalsForRow), TeamTotalDesc);
    OrderedSorted(r, TeamRows(db, sel, GoalsForRow), TeamTotalDesc);
    r
  }

  /** "Classement des équipes": wins, draws, losses and 3/1/0 points per team, ORDER BY points DESC. */
  function Standings(db: Db, sel: Selection): (r: seq<Standing>)
    ensures IsOrdered(r, TeamRows(db, sel, StandingRow), PointsDesc)
    ensures forall i, j | 0 <= i < j < |r| :: r[i].points >= r[j].points
  {
    RankingOrders();
    var r := Sort(TeamRows(db, sel, StandingRow), PointsDesc);
    OrderedSorted(r, TeamRows(db, sel, StandingRow), PointsDesc);
    r
  }

  /** "Meilleures défenses": SUM(rm.butsconcedes) per team, ASC. */
  function BestDefenses(db: Db, sel: Selection): (r: seq<TeamTotal>)
    ensures IsOrdered(r, TeamRows(db, sel, GoalsAgainstRow), TeamTotalAsc)
    ensures forall i, j | 0 <= i < j < |r| :: r[i].total <= r[j].total
  {
    RankingOrders();
    var r := Sort(TeamRows(db, sel, GoalsAgainstRow), TeamTotalAsc);
    OrderedSorted(r, TeamRows(db, sel, GoalsAgainstRow), TeamTotalAsc);
    r
  }

  /** "Meilleurs buteurs par équipe": MAX(sj.buts) per (team, player name). */
  function TopScorerPerTeam(db: Db, sel: Selection): (r: seq<TeamScorer>)
    ensures IsOrdered(r, GroupRows(PlayerQueryLines(db, sel), TeamAndPlayer, TeamScorerRow), TeamThenMaxDesc)
    ensures forall i, j | 0 <= i < j < |r| ::
              LexLe(r[i].nomequipe, r[j].nomequipe) &&
              (r[i].nomequipe == r[j].nomequipe ==> r[i].max_buts >= r[j].max_buts)
  {
    TeamFirstOrder();
    var r := Sort(GroupRows(PlayerQueryLines(db, sel), TeamAndPlayer, TeamScorerRow), TeamThenMaxDesc);
    ScorersByTeam(r);
    r
  }

  /** Ordered by team first, the rows list the teams in name order. */
  lemma ScorersByTeam(r: seq<TeamScorer>)
    requires SortedBy(r, TeamThenMaxDesc)
    ensures forall i, j | 0 <= i < j < |r| ::
              LexLe(r[i].nomequipe, r[j].nomequipe) &&
              (r[i].nomequipe == r[j].nomequipe ==> r[i].max_buts >= r[j].max_buts)
  {
    forall i, j | 0 <= i < j < |r|
      ensures LexLe(r[i].nomequipe, r[j].nomequipe)
    {
      assert TeamThenMaxDesc(r[i], r[j]);
      LexLeReflexive(r[i].nomequipe);
    }
  }

  /** "Nombre total de matchs joués par équipe": COUNT(DISTINCT rm.idmatch) per team, DESC. */
  function MatchesPlayed(db: Db, sel: Selection): (r: seq<TeamTotal>)
    ensures IsOrdered(r, TeamRows(db, sel, MatchesRow), TeamTotalDesc)
    ensures forall i, j | 0 <= i < j < |r| :: r[i].total >= r[j].total
  {
    Sort(TeamRows(db, sel, MatchesRow), TeamTotalDesc)
  }
}
