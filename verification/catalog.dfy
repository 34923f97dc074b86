/**
 * The dashboard's closed catalog of analyses: the menu of ten names, the SQL template each
 * name selects (with its single `{excl}` filter slot), the WHERE clause spliced into the
 * slot for the chosen team, and the team menu.
 */
module Catalog {
  import opened Wrappers
  import opened Seqs
  import opened Sorting
  import opened Text
  import opened Relational
  import opened Store

  datatype Analysis =
    | TopScorers | MostDecisive | MostDisciplined | Nationalities | TotalGoals
    | AverageGoals | Standings | BestDefenses | TopScorerPerTeam | MatchesPlayed

  /** The analyses in the order the sidebar lists them. */
  const Menu: seq<Analysis> :=
    [TopScorers, MostDecisive, MostDisciplined, Nationalities, TotalGoals,
     AverageGoals, Standings, BestDefenses, TopScorerPerTeam, MatchesPlayed]

  /** The name an analysis has in the menu and in the query catalog. */
  function Name(a: Analysis): string
  {
    match a
    case TopScorers => "Top 10 des meilleurs buteurs"
    case MostDecisive => "Joueurs les plus d\U{e9}cisifs"
    case MostDisciplined => "Joueurs les plus disciplin\U{e9}s (moins de cartons)"
    case Nationalities => "R\U{e9}partition des nationalit\U{e9}s par \U{e9}quipe"
    case TotalGoals => "Nombre total de buts par \U{e9}quipe"
    case AverageGoals => "Moyenne de buts marqu\U{e9}s/encaiss\U{e9}s par match"
    case Standings => "Classement des \U{e9}quipes"
    case BestDefenses => "Meilleures d\U{e9}fenses (moins de buts conc\U{e9}d\U{e9}s)"
    case TopScorerPerTeam => "Meilleurs buteurs par \U{e9}quipe"
    case MatchesPlayed => "Nombre total de matchs jou\U{e9}s par \U{e9}quipe"
  }

  /** The sidebar's list of analysis names. */
  function MenuNames(): seq<string>
  {
    Map(Menu, Name)
  }

  /** The menu lists every analysis exactly once. */
  lemma MenuComplete()
    ensures |Menu| == 10 && NoDuplicates(Menu)
    ensures forall a :: a in Menu
  {
    forall a
      ensures a in Menu
    {
      match a
      case TopScorers => assert Menu[0] == a;
      case MostDecisive => assert Menu[1] == a;
      case MostDisciplined => assert Menu[2] == a;
      case Nationalities => assert Menu[3] == a;
      case TotalGoals => assert Menu[4] == a;
      case AverageGoals => assert Menu[5] == a;
      case Standings => assert Menu[6] == a;
      case BestDefenses => assert Menu[7] == a;
      case TopScorerPerTeam => assert Menu[8] == a;
      case MatchesPlayed => assert Menu[9] == a;
    }
  }

  /** Where the sidebar lists an analysis. */
  function MenuIndex(a: Analysis): (i: nat)
    ensures i < |Menu| && Menu[i] == a
  {
    match a
    case TopScorers => 0
    case MostDecisive => 1
    case MostDisciplined => 2
    case Nationalities => 3
    case TotalGoals => 4
    case AverageGoals => 5
    case Standings => 6
    case BestDefenses => 7
    case TopScorerPerTeam => 8
    case MatchesPlayed => 9
  }

  /** No two analyses share a name. */
  lemma NamesDistinct()
    ensures forall a, b :: Name(a) == Name(b) ==> a == b
  {
    forall a, b | Name(a) == Name(b)
      ensures a == b
    {
      NameDetermines(a, b);
    }
  }

  /** Two analyses with the same menu name are the same analysis. */
  lemma NameDetermines(a: Analysis, b: Analysis)
    requires Name(a) == Name(b)
    ensures a == b
  {
    match a
    case TopScorers => NameOnlyOfTopScorers(b);
    case MostDecisive => NameOnlyOfMostDecisive(b);
    case MostDisciplined => NameOnlyOfMostDisciplined(b);
    case Nationalities => NameOnlyOfNationalities(b);
    case TotalGoals => NameOnlyOfTotalGoals(b);
    case AverageGoals => NameOnlyOfAverageGoals(b);
    case Standings => NameOnlyOfStandings(b);
    case BestDefenses => NameOnlyOfBestDefenses(b);
    case TopScorerPerTeam => NameOnlyOfTopScorerPerTeam(b);
    case MatchesPlayed => NameOnlyOfMatchesPlayed(b);
  }

  lemma NameOnlyOfTopScorers(b: Analysis)
    requires Name(b) == Name(TopScorers)
    ensures b == TopScorers
  {
  }

  lemma NameOnlyOfMostDecisive(b: Analysis)
    requires Name(b) == Name(MostDecisive)
    ensures b == MostDecisive
  {
  }

  lemma NameOnlyOfMostDisciplined(b: Analysis)
    requires Name(b) == Name(MostDisciplined)
    ensures b == MostDisciplined
  {
  }

  lemma NameOnlyOfNationalities(b: Analysis)
    requires Name(b) == Name(Nationalities)
    ensures b == Nationalities
  {
  }

  lemma NameOnlyOfTotalGoals(b: Analysis)
    requires Name(b) == Name(TotalGoals)
    ensures b == TotalGoals
  {
  }

  lemma NameOnlyOfAverageGoals(b: Analysis)
    requires Name(b) == Name(AverageGoals)
    ensures b == AverageGoals
  {
  }

  lemma NameOnlyOfStandings(b: Analysis)
    requires Name(b) == Name(Standings)
    ensures b == Standings
  {
  }

  lemma NameOnlyOfBestDefenses(b: Analysis)
    requires Name(b) == Name(BestDefenses)
    ensures b == BestDefenses
  {
  }

  lemma NameOnlyOfTopScorerPerTeam(b: Analysis)
    requires Name(b) == Name(TopScorerPerTeam)
    ensures b == TopScorerPerTeam
  {
  }

  lemma NameOnlyOfMatchesPlayed(b: Analysis)
    requires Name(b) == Name(MatchesPlayed)
    ensures b == MatchesPlayed
  {
  }

  /** The ten menu names are pairwise different. */
  lemma MenuNamesDistinct()
    ensures NoDuplicates(MenuNames())
  {
    MenuComplete();
    NamesDistinct();
  }

  /** The placeholder each template holds once. */
  const Slot: string := "{excl}"

  /**
   * A query template: the text before its `{excl}` slot and the text after it, each held as
   * the short pieces it is written out in below.
   */
  datatype Template = Template(before: seq<string>, after: seq<string>)
  {
    function Head(): string
    {
      Flatten(before)
    }

    function Tail(): string
    {
      Flatten(after)
    }

    /** The template's full text, slot included. */
    function Text(): string
    {
      Head() + Slot + Tail()
    }

    /** No brace outside the slot, so `{excl}` cannot occur anywhere else. */
    predicate SlotOnlyOnce()
    {
      Slot[0] !in Head() && Slot[0] !in Tail()
    }
  }

  /** None of the pieces holds a brace. */
  predicate BraceFree(pieces: seq<string>)
  {
    forall k | 0 <= k < |pieces| :: Slot[0] !in pieces[k]
  }

  /** A template whose pieces hold no brace has its slot's brace only once. */
  lemma SlotOnceOfPieces(t: Template)
    requires BraceFree(t.before) && BraceFree(t.after)
    ensures t.SlotOnlyOnce()
  {
    BraceFreeText(t.before);
    BraceFreeText(t.after);
  }

  /** Pieces without a brace make a text without a brace. */
  lemma {:induction false} BraceFreeText(pieces: seq<string>)
    requires BraceFree(pieces)
    ensures Slot[0] !in Flatten(pieces)
  {
    if |pieces| > 0 {
      BraceFreeText(pieces[1..]);
    }
  }

  /** The SQL text the catalog holds for each analysis, split at its `{excl}` slot. */
  function TemplateOf(a: Analysis): Template
  {
    match a
    case TopScorers => TopScorersSql
    case MostDecisive => MostDecisiveSql
    case MostDisciplined => MostDisciplinedSql
    case Nationalities => NationalitiesSql
    case TotalGoals => TotalGoalsSql
    case AverageGoals => AverageGoalsSql
    case Standings => StandingsSql
    case BestDefenses => BestDefensesSql
    case TopScorerPerTeam => TopScorerPerTeamSql
    case MatchesPlayed => MatchesPlayedSql
  }

  const TopScorersSql := Template(
    [ "\n",
      "SELECT j.nomjoueur, j.position,",
      " j.nationalite, e.nomequipe,\n",
      "       SUM(sj.buts) as",
      " total_buts\n",
      "FROM joueur j\n",
      "JOIN statistiquejoueur sj ON",
      " j.idjoueur = sj.idjoueur\n",
      "JOIN equipe e ON j.id_equipe =",
      " e.idequipe\n"],
    [ "\n",
      "GROUP BY j.idjoueur\n",
      "ORDER BY total_buts DESC\n",
      "LIMIT 10\n"])

  const MostDecisiveSql := Template(
    [ "\n",
      "SELECT j.nomjoueur, j.position,",
      " j.nationalite, e.nomequipe,\n",
      "       SUM(sj.buts +",
      " sj.passesdecisives) as",
      " total_decisif\n",
      "FROM joueur j\n",
      "JOIN statistiquejoueur sj ON",
      " j.idjoueur = sj.idjoueur\n",
      "JOIN equipe e ON j.id_equipe =",
      " e.idequipe\n"],
    [ "\n",
      "GROUP BY j.idjoueur\n",
      "ORDER BY total_decisif DESC\n",
      "LIMIT 10\n"])

  const MostDisciplinedSql := Template(
    [ "\n",
      "SELECT j.nomjoueur, j.position,",
      " j.nationalite, e.nomequipe,\n",
      "       SUM(sj.cartonsjaunes +",
      " sj.cartonsrouges) as",
      " total_cartons,\n",
      "       SUM(sj.cartonsjaunes) as",
      " jaunes,\n",
      "       SUM(sj.cartonsrouges) as",
      " rouges\n",
      "FROM joueur j\n",
      "JOIN statistiquejoueur sj ON",
      " j.idjoueur = sj.idjoueur\n",
      "JOIN equipe e ON j.id_equipe =",
      " e.idequipe\n"],
    [ "\n",
      "GROUP BY j.idjoueur\n",
      "ORDER BY total_cartons ASC\n",
      "LIMIT 10\n"])

  const NationalitiesSql := Template(
    [ "\n",
      "SELECT e.nomequipe,\n",
      "       j.nationalite,\n",
      "       COUNT(*) as",
      " nombre_joueurs\n",
      "FROM joueur j\n",
      "JOIN equipe e ON j.id_equipe =",
      " e.idequipe\n"],
    [ "\n",
      "GROUP BY e.nomequipe,",
      " j.nationalite\n",
      "ORDER BY e.nomequipe,",
      " nombre_joueurs DESC\n"])

  const TotalGoalsSql := Template(
    [ "\n",
      "SELECT e.nomequipe,\n",
      "       SUM(rm.butsmarques) as",
      " buts_marques\n",
      "FROM equipe e\n",
      "JOIN resultatmatch rm ON",
      " e.idequipe = rm.idequipe\n"],
    [ "\n",
      "GROUP BY e.nomequipe\n",
      "ORDER BY buts_marques DESC\n"])

  const AverageGoalsSql := Template(
    [ "\n",
      "SELECT e.nomequipe,\n",
      "      ",
      " ROUND(AVG(CAST(rm.butsmarques",
      " AS FLOAT)), 2) as",
      " moyenne_buts_marques,\n",
      "      ",
      " ROUND(AVG(CAST(rm.butsconcedes",
      " AS FLOAT)), 2) as",
      " moyenne_buts_concedes\n",
      "FROM equipe e\n",
      "JOIN resultatmatch rm ON",
      " e.idequipe = rm.idequipe\n"],
    [ "\n",
      "GROUP BY e.nomequipe\n",
      "ORDER BY moyenne_buts_marques",
      " DESC\n"])

  const StandingsSql := Template(
    [ "\n",
      "SELECT e.nomequipe,\n",
      "       COUNT(CASE WHEN",
      " rm.resultat = 'Victoire' THEN",
      " 1 END) as victoires,\n",
      "       COUNT(CASE WHEN",
      " rm.resultat = 'Nul' THEN 1",
      " END) as nuls,\n",
      "       COUNT(CASE WHEN",
      " rm.resultat = 'D\U{e9}faite' THEN 1",
      " END) as defaites,\n",
      "       (COUNT(CASE WHEN",
      " rm.resultat = 'Victoire' THEN",
      " 1 END) * 3 +\n",
      "        COUNT(CASE WHEN",
      " rm.resultat = 'Nul' THEN 1",
      " END)) as points\n",
      "FROM equipe e\n",
      "JOIN resultatmatch rm ON",
      " e.idequipe = rm.idequipe\n"],
    [ "\n",
      "GROUP BY e.nomequipe\n",
      "ORDER BY points DESC\n"])

  const BestDefensesSql := Template(
    [ "\n",
      "SELECT e.nomequipe,\n",
      "       SUM(rm.butsconcedes) as",
      " buts_concedes\n",
      "FROM equipe e\n",
      "JOIN resultatmatch rm ON",
      " e.idequipe = rm.idequipe\n"],
    [ "\n",
      "GROUP BY e.nomequipe\n",
      "ORDER BY buts_concedes ASC\n"])

  const TopScorerPerTeamSql := Template(
    [ "\n",
      "SELECT e.nomequipe,",
      " j.nomjoueur, MAX(sj.buts) as",
      " max_buts\n",
      "FROM equipe e\n",
      "JOIN joueur j ON e.idequipe =",
      " j.id_equipe\n",
      "JOIN statistiquejoueur sj ON",
      " j.idjoueur = sj.idjoueur\n"],
    [ "\n",
      "GROUP BY e.nomequipe,",
      " j.nomjoueur\n",
      "ORDER BY e.nomequipe, max_buts",
      " DESC\n"])

  const MatchesPlayedSql := Template(
    [ "\n",
      "SELECT e.nomequipe,\n",
      "       COUNT(DISTINCT",
      " rm.idmatch) as total_matchs\n",
      "FROM equipe e\n",
      "JOIN resultatmatch rm ON",
      " e.idequipe = rm.idequipe\n"],
    [ "\n",
      "GROUP BY e.nomequipe\n",
      "ORDER BY total_matchs DESC\n"])

  // The brace-freeness proofs below are split per template and per piece on purpose: ruling
  // out `{` in every piece of a template in one proof exceeds the solver's budget.  So
  // `PiecesOf<T>` combines `HeadOf<T>` and `TailOf<T>`, and these combine the
  // `BraceFreeRange<T>Head<i>` / `Tail<i>` lemmas, each of which checks at most four pieces.
  // The block is repetitive by design; every lemma in it is small enough to check quickly.

  /** The text of each template holds no brace besides its slot's. */
  lemma TemplateBraceFree(a: Analysis)
    ensures TemplateOf(a).SlotOnlyOnce()
  {
    match a
    case TopScorers => PiecesOfTopScorers();
    case MostDecisive => PiecesOfMostDecisive();
    case MostDisciplined => PiecesOfMostDisciplined();
    case Nationalities => PiecesOfNationalities();
    case TotalGoals => PiecesOfTotalGoals();
    case AverageGoals => PiecesOfAverageGoals();
    case Standings => PiecesOfStandings();
    case BestDefenses => PiecesOfBestDefenses();
    case TopScorerPerTeam => PiecesOfTopScorerPerTeam();
    case MatchesPlayed => PiecesOfMatchesPlayed();
  }

  lemma PiecesOfTopScorers()
    ensures TopScorersSql.SlotOnlyOnce()
  {
    HeadOfTopScorers();
    TailOfTopScorers();
    SlotOnceOfPieces(TopScorersSql);
  }

  lemma HeadOfTopScorers()
    ensures BraceFree(TopScorersSql.before)
  {
    assert |TopScorersSql.before| == 10;
    BraceFreeRangeTopScorersHead0();
    BraceFreeRangeTopScorersHead4();
    BraceFreeRangeTopScorersHead8();
  }

  lemma TailOfTopScorers()
    ensures BraceFree(TopScorersSql.after)
  {
    assert |TopScorersSql.after| == 4;
    BraceFreeRangeTopScorersTail0();
  }

  lemma BraceFreeRangeTopScorersHead0()
    ensures forall k | 0 <= k < 4 && k < |TopScorersSql.before| :: Slot[0] !in TopScorersSql.before[k]
  {
    var p := TopScorersSql.before;
    assert Slot[0] !in p[0];
    assert Slot[0] !in p[1];
    assert Slot[0] !in p[2];
    assert Slot[0] !in p[3];
  }

  lemma BraceFreeRangeTopScorersHead4()
    ensures forall k | 4 <= k < 8 && k < |TopScorersSql.before| :: Slot[0] !in TopScorersSql.before[k]
  {
    var p := TopScorersSql.before;
    assert Slot[0] !in p[4];
    assert Slot[0] !in p[5];
    assert Slot[0] !in p[6];
    assert Slot[0] !in p[7];
  }

  lemma BraceFreeRangeTopScorersHead8()
    ensures forall k | 8 <= k < 10 && k < |TopScorersSql.before| :: Slot[0] !in TopScorersSql.before[k]
  {
    var p := TopScorersSql.before;
    assert Slot[0] !in p[8];
    assert Slot[0] !in p[9];
  }

  lemma BraceFreeRangeTopScorersTail0()
    ensures forall k | 0 <= k < 4 && k < |TopScorersSql.after| :: Slot[0] !in TopScorersSql.after[k]
  {
    var p := TopScorersSql.after;
    assert Slot[0] !in p[0];
    assert Slot[0] !in p[1];
    assert Slot[0] !in p[2];
    assert Slot[0] !in p[3];
  }

  lemma PiecesOfMostDecisive()
    ensures MostDecisiveSql.SlotOnlyOnce()
  {
    HeadOfMostDecisive();
    TailOfMostDecisive();
    SlotOnceOfPieces(MostDecisiveSql);
  }

  lemma HeadOfMostDecisive()
    ensures BraceFree(MostDecisiveSql.before)
  {
    assert |MostDecisiveSql.before| == 11;
    BraceFreeRangeMostDecisiveHead0();
    BraceFreeRangeMostDecisiveHead4();
    BraceFreeRangeMostDecisiveHead8();
  }

  lemma TailOfMostDecisive()
    ensures BraceFree(MostDecisiveSql.after)
  {
    assert |MostDecisiveSql.after| == 4;
    BraceFreeRangeMostDecisiveTail0();
  }

  lemma BraceFreeRangeMostDecisiveHead0()
    ensures forall k | 0 <= k < 4 && k < |MostDecisiveSql.before| :: Slot[0] !in MostDecisiveSql.before[k]
  {
    var p := MostDecisiveSql.before;
    assert Slot[0] !in p[0];
    assert Slot[0] !in p[1];
    assert Slot[0] !in p[2];
    assert Slot[0] !in p[3];
  }

  lemma BraceFreeRangeMostDecisiveHead4()
    ensures forall k | 4 <= k < 8 && k < |MostDecisiveSql.before| :: Slot[0] !in MostDecisiveSql.before[k]
  {
    var p := MostDecisiveSql.before;
    assert Slot[0] !in p[4];
    assert Slot[0] !in p[5];
    assert Slot[0] !in p[6];
    assert Slot[0] !in p[7];
  }

  lemma BraceFreeRangeMostDecisiveHead8()
    ensures forall k | 8 <= k < 11 && k < |MostDecisiveSql.before| :: Slot[0] !in MostDecisiveSql.before[k]
  {
    var p := MostDecisiveSql.before;
    assert Slot[0] !in p[8];
    assert Slot[0] !in p[9];
    assert Slot[0] !in p[10];
  }

  lemma BraceFreeRangeMostDecisiveTail0()
    ensures forall k | 0 <= k < 4 && k < |MostDecisiveSql.after| :: Slot[0] !in MostDecisiveSql.after[k]
  {
    var p := MostDecisiveSql.after;
    assert Slot[0] !in p[0];
    assert Slot[0] !in p[1];
    assert Slot[0] !in p[2];
    assert Slot[0] !in p[3];
  }

  lemma PiecesOfMostDisciplined()
    ensures MostDisciplinedSql.SlotOnlyOnce()
  {
    HeadOfMostDisciplined();
    TailOfMostDisciplined();
    SlotOnceOfPieces(MostDisciplinedSql);
  }

  lemma HeadOfMostDisciplined()
    ensures BraceFree(MostDisciplinedSql.before)
  {
    assert |MostDisciplinedSql.before| == 15;
    BraceFreeRangeMostDisciplinedHead0();
    BraceFreeRangeMostDisciplinedHead4();
    BraceFreeRangeMostDisciplinedHead8();
    BraceFreeRangeMostDisciplinedHead12();
  }

  lemma TailOfMostDisciplined()
    ensures BraceFree(MostDisciplinedSql.after)
  {
    assert |MostDisciplinedSql.after| == 4;
    BraceFreeRangeMostDisciplinedTail0();
  }

  lemma BraceFreeRangeMostDisciplinedHead0()
    ensures forall k | 0 <= k < 4 && k < |MostDisciplinedSql.before| :: Slot[0] !in MostDisciplinedSql.before[k]
  {
    var p := MostDisciplinedSql.before;
    assert Slot[0] !in p[0];
    assert Slot[0] !in p[1];
    assert Slot[0] !in p[2];
    assert Slot[0] !in p[3];
  }

  lemma BraceFreeRangeMostDisciplinedHead4()
    ensures forall k | 4 <= k < 8 && k < |MostDisciplinedSql.before| :: Slot[0] !in MostDisciplinedSql.before[k]
  {
    var p := MostDisciplinedSql.before;
    assert Slot[0] !in p[4];
    assert Slot[0] !in p[5];
    assert Slot[0] !in p[6];
    assert Slot[0] !in p[7];
  }

  lemma BraceFreeRangeMostDisciplinedHead8()
    ensures forall k | 8 <= k < 12 && k < |MostDisciplinedSql.before| :: Slot[0] !in MostDisciplinedSql.before[k]
  {
    var p := MostDisciplinedSql.before;
    assert Slot[0] !in p[8];
    assert Slot[0] !in p[9];
    assert Slot[0] !in p[10];
    assert Slot[0] !in p[11];
  }

  lemma BraceFreeRangeMostDisciplinedHead12()
    ensures forall k | 12 <= k < 15 && k < |MostDisciplinedSql.before| :: Slot[0] !in MostDisciplinedSql.before[k]
  {
    var p := MostDisciplinedSql.before;
    assert Slot[0] !in p[12];
    assert Slot[0] !in p[13];
    assert Slot[0] !in p[14];
  }

  lemma BraceFreeRangeMostDisciplinedTail0()
    ensures forall k | 0 <= k < 4 && k < |MostDisciplinedSql.after| :: Slot[0] !in MostDisciplinedSql.after[k]
  {
    var p := MostDisciplinedSql.after;
    assert Slot[0] !in p[0];
    assert Slot[0] !in p[1];
    assert Slot[0] !in p[2];
    assert Slot[0] !in p[3];
  }

  lemma PiecesOfNationalities()
    ensures NationalitiesSql.SlotOnlyOnce()
  {
    HeadOfNationalities();
    TailOfNationalities();
    SlotOnceOfPieces(NationalitiesSql);
  }

  lemma HeadOfNationalities()
    ensures BraceFree(NationalitiesSql.before)
  {
    assert |NationalitiesSql.before| == 8;
    BraceFreeRangeNationalitiesHead0();
    BraceFreeRangeNationalitiesHead4();
  }

  lemma TailOfNationalities()
    ensures BraceFree(NationalitiesSql.after)
  {
    assert |NationalitiesSql.after| == 5;
    BraceFreeRangeNationalitiesTail0();
    BraceFreeRangeNationalitiesTail4();
  }

  lemma BraceFreeRangeNationalitiesHead0()
    ensures forall k | 0 <= k < 4 && k < |NationalitiesSql.before| :: Slot[0] !in NationalitiesSql.before[k]
  {
    var p := NationalitiesSql.before;
    assert Slot[0] !in p[0];
    assert Slot[0] !in p[1];
    assert Slot[0] !in p[2];
    assert Slot[0] !in p[3];
  }

  lemma BraceFreeRangeNationalitiesHead4()
    ensures forall k | 4 <= k < 8 && k < |NationalitiesSql.before| :: Slot[0] !in NationalitiesSql.before[k]
  {
    var p := NationalitiesSql.before;
    assert Slot[0] !in p[4];
    assert Slot[0] !in p[5];
    assert Slot[0] !in p[6];
    assert Slot[0] !in p[7];
  }

  lemma BraceFreeRangeNationalitiesTail0()
    ensures forall k | 0 <= k < 4 && k < |NationalitiesSql.after| :: Slot[0] !in NationalitiesSql.after[k]
  {
    var p := NationalitiesSql.after;
    assert Slot[0] !in p[0];
    assert Slot[0] !in p[1];
    assert Slot[0] !in p[2];
    assert Slot[0] !in p[3];
  }

  lemma BraceFreeRangeNationalitiesTail4()
    ensures forall k | 4 <= k < 5 && k < |NationalitiesSql.after| :: Slot[0] !in NationalitiesSql.after[k]
  {
    var p := NationalitiesSql.after;
    assert Slot[0] !in p[4];
  }

  lemma PiecesOfTotalGoals()
    ensures TotalGoalsSql.SlotOnlyOnce()
  {
    HeadOfTotalGoals();
    TailOfTotalGoals();
    SlotOnceOfPieces(TotalGoalsSql);
  }

  lemma HeadOfTotalGoals()
    ensures BraceFree(TotalGoalsSql.before)
  {
    assert |TotalGoalsSql.before| == 7;
    BraceFreeRangeTotalGoalsHead0();
    BraceFreeRangeTotalGoalsHead4();
  }

  lemma TailOfTotalGoals()
    ensures BraceFree(TotalGoalsSql.after)
  {
    assert |TotalGoalsSql.after| == 3;
    BraceFreeRangeTotalGoalsTail0();
  }

  lemma BraceFreeRangeTotalGoalsHead0()
    ensures forall k | 0 <= k < 4 && k < |TotalGoalsSql.before| :: Slot[0] !in TotalGoalsSql.before[k]
  {
    var p := TotalGoalsSql.before;
    assert Slot[0] !in p[0];
    assert Slot[0] !in p[1];
    assert Slot[0] !in p[2];
    assert Slot[0] !in p[3];
  }

  lemma BraceFreeRangeTotalGoalsHead4()
    ensures forall k | 4 <= k < 7 && k < |TotalGoalsSql.before| :: Slot[0] !in TotalGoalsSql.before[k]
  {
    var p := TotalGoalsSql.before;
    assert Slot[0] !in p[4];
    assert Slot[0] !in p[5];
    assert Slot[0] !in p[6];
  }

  lemma BraceFreeRangeTotalGoalsTail0()
    ensures forall k | 0 <= k < 3 && k < |TotalGoalsSql.after| :: Slot[0] !in TotalGoalsSql.after[k]
  {
    var p := TotalGoalsSql.after;
    assert Slot[0] !in p[0];
    assert Slot[0] !in p[1];
    assert Slot[0] !in p[2];
  }

  lemma PiecesOfAverageGoals()
    ensures AverageGoalsSql.SlotOnlyOnce()
  {
    HeadOfAverageGoals();
    TailOfAverageGoals();
    SlotOnceOfPieces(AverageGoalsSql);
  }

  lemma HeadOfAverageGoals()
    ensures BraceFree(AverageGoalsSql.before)
  {
    assert |AverageGoalsSql.before| == 13;
    BraceFreeRangeAverageGoalsHead0();
    BraceFreeRangeAverageGoalsHead4();
    BraceFreeRangeAverageGoalsHead8();
    BraceFreeRangeAverageGoalsHead12();
  }

  lemma TailOfAverageGoals()
    ensures BraceFree(AverageGoalsSql.after)
  {
    assert |AverageGoalsSql.after| == 4;
    BraceFreeRangeAverageGoalsTail0();
  }

  lemma BraceFreeRangeAverageGoalsHead0()
    ensures forall k | 0 <= k < 4 && k < |AverageGoalsSql.before| :: Slot[0] !in AverageGoalsSql.before[k]
  {
    var p := AverageGoalsSql.before;
    assert Slot[0] !in p[0];
    assert Slot[0] !in p[1];
    assert Slot[0] !in p[2];
    assert Slot[0] !in p[3];
  }

  lemma BraceFreeRangeAverageGoalsHead4()
    ensures forall k | 4 <= k < 8 && k < |AverageGoalsSql.before| :: Slot[0] !in AverageGoalsSql.before[k]
  {
    var p := AverageGoalsSql.before;
    assert Slot[0] !in p[4];
    assert Slot[0] !in p[5];
    assert Slot[0] !in p[6];
    assert Slot[0] !in p[7];
  }

  lemma BraceFreeRangeAverageGoalsHead8()
    ensures forall k | 8 <= k < 12 && k < |AverageGoalsSql.before| :: Slot[0] !in AverageGoalsSql.before[k]
  {
    var p := AverageGoalsSql.before;
    assert Slot[0] !in p[8];
    assert Slot[0] !in p[9];
    assert Slot[0] !in p[10];
    assert Slot[0] !in p[11];
  }

  lemma BraceFreeRangeAverageGoalsHead12()
    ensures forall k | 12 <= k < 13 && k < |AverageGoalsSql.before| :: Slot[0] !in AverageGoalsSql.before[k]
  {
    var p := AverageGoalsSql.before;
    assert Slot[0] !in p[12];
  }

  lemma BraceFreeRangeAverageGoalsTail0()
    ensures forall k | 0 <= k < 4 && k < |AverageGoalsSql.after| :: Slot[0] !in AverageGoalsSql.after[k]
  {
    var p := AverageGoalsSql.after;
    assert Slot[0] !in p[0];
    assert Slot[0] !in p[1];
    assert Slot[0] !in p[2];
    assert Slot[0] !in p[3];
  }

  lemma PiecesOfStandings()
    ensures StandingsSql.SlotOnlyOnce()
  {
    HeadOfStandings();
    TailOfStandings();
    SlotOnceOfPieces(StandingsSql);
  }

  lemma HeadOfStandings()
    ensures BraceFree(StandingsSql.before)
  {
    assert |StandingsSql.before| == 20;
    BraceFreeRangeStandingsHead0();
    BraceFreeRangeStandingsHead4();
    BraceFreeRangeStandingsHead8();
    BraceFreeRangeStandingsHead12();
    BraceFreeRangeStandingsHead16();
  }

  lemma TailOfStandings()
    ensures BraceFree(StandingsSql.after)
  {
    assert |StandingsSql.after| == 3;
    BraceFreeRangeStandingsTail0();
  }

  lemma BraceFreeRangeStandingsHead0()
    ensures forall k | 0 <= k < 4 && k < |StandingsSql.before| :: Slot[0] !in StandingsSql.before[k]
  {
    var p := StandingsSql.before;
    assert Slot[0] !in p[0];
    assert Slot[0] !in p[1];
    assert Slot[0] !in p[2];
    assert Slot[0] !in p[3];
  }

  lemma BraceFreeRangeStandingsHead4()
    ensures forall k | 4 <= k < 8 && k < |StandingsSql.before| :: Slot[0] !in StandingsSql.before[k]
  {
    var p := StandingsSql.before;
    assert Slot[0] !in p[4];
    assert Slot[0] !in p[5];
    assert Slot[0] !in p[6];
    assert Slot[0] !in p[7];
  }

  lemma BraceFreeRangeStandingsHead8()
    ensures forall k | 8 <= k < 12 && k < |StandingsSql.before| :: Slot[0] !in StandingsSql.before[k]
  {
    var p := StandingsSql.before;
    assert Slot[0] !in p[8];
    assert Slot[0] !in p[9];
    assert Slot[0] !in p[10];
    assert Slot[0] !in p[11];
  }

  lemma BraceFreeRangeStandingsHead12()
    ensures forall k | 12 <= k < 16 && k < |StandingsSql.before| :: Slot[0] !in StandingsSql.before[k]
  {
    var p := StandingsSql.before;
    assert Slot[0] !in p[12];
    assert Slot[0] !in p[13];
    assert Slot[0] !in p[14];
    assert Slot[0] !in p[15];
  }

  lemma BraceFreeRangeStandingsHead16()
    ensures forall k | 16 <= k < 20 && k < |StandingsSql.before| :: Slot[0] !in StandingsSql.before[k]
  {
    var p := StandingsSql.before;
    assert Slot[0] !in p[16];
    assert Slot[0] !in p[17];
    assert Slot[0] !in p[18];
    assert Slot[0] !in p[19];
  }

  lemma BraceFreeRangeStandingsTail0()
    ensures forall k | 0 <= k < 3 && k < |StandingsSql.after| :: Slot[0] !in StandingsSql.after[k]
  {
    var p := StandingsSql.after;
    assert Slot[0] !in p[0];
    assert Slot[0] !in p[1];
    assert Slot[0] !in p[2];
  }

  lemma PiecesOfBestDefenses()
    ensures BestDefensesSql.SlotOnlyOnce()
  {
    HeadOfBestDefenses();
    TailOfBestDefenses();
    SlotOnceOfPieces(BestDefensesSql);
  }

  lemma HeadOfBestDefenses()
    ensures BraceFree(BestDefensesSql.before)
  {
    assert |BestDefensesSql.before| == 7;
    BraceFreeRangeBestDefensesHead0();
    BraceFreeRangeBestDefensesHead4();
  }

  lemma TailOfBestDefenses()
    ensures BraceFree(BestDefensesSql.after)
  {
    assert |BestDefensesSql.after| == 3;
    BraceFreeRangeBestDefensesTail0();
  }

  lemma BraceFreeRangeBestDefensesHead0()
    ensures forall k | 0 <= k < 4 && k < |BestDefensesSql.before| :: Slot[0] !in BestDefensesSql.before[k]
  {
    var p := BestDefensesSql.before;
    assert Slot[0] !in p[0];
    assert Slot[0] !in p[1];
    assert Slot[0] !in p[2];
    assert Slot[0] !in p[3];
  }

  lemma BraceFreeRangeBestDefensesHead4()
    ensures forall k | 4 <= k < 7 && k < |BestDefensesSql.before| :: Slot[0] !in BestDefensesSql.before[k]
  {
    var p := BestDefensesSql.before;
    assert Slot[0] !in p[4];
    assert Slot[0] !in p[5];
    assert Slot[0] !in p[6];
  }

  lemma BraceFreeRangeBestDefensesTail0()
    ensures forall k | 0 <= k < 3 && k < |BestDefensesSql.after| :: Slot[0] !in BestDefensesSql.after[k]
  {
    var p := BestDefensesSql.after;
    assert Slot[0] !in p[0];
    assert Slot[0] !in p[1];
    assert Slot[0] !in p[2];
  }

  lemma PiecesOfTopScorerPerTeam()
    ensures TopScorerPerTeamSql.SlotOnlyOnce()
  {
    HeadOfTopScorerPerTeam();
    TailOfTopScorerPerTeam();
    SlotOnceOfPieces(TopScorerPerTeamSql);
  }

  lemma HeadOfTopScorerPerTeam()
    ensures BraceFree(TopScorerPerTeamSql.before)
  {
    assert |TopScorerPerTeamSql.before| == 9;
    BraceFreeRangeTopScorerPerTeamHead0();
    BraceFreeRangeTopScorerPerTeamHead4();
    BraceFreeRangeTopScorerPerTeamHead8();
  }

  lemma TailOfTopScorerPerTeam()
    ensures BraceFree(TopScorerPerTeamSql.after)
  {
    assert |TopScorerPerTeamSql.after| == 5;
    BraceFreeRangeTopScorerPerTeamTail0();
    BraceFreeRangeTopScorerPerTeamTail4();
  }

  lemma BraceFreeRangeTopScorerPerTeamHead0()
    ensures forall k | 0 <= k < 4 && k < |TopScorerPerTeamSql.before| :: Slot[0] !in TopScorerPerTeamSql.before[k]
  {
    var p := TopScorerPerTeamSql.before;
    assert Slot[0] !in p[0];
    assert Slot[0] !in p[1];
    assert Slot[0] !in p[2];
    assert Slot[0] !in p[3];
  }

  lemma BraceFreeRangeTopScorerPerTeamHead4()
    ensures forall k | 4 <= k < 8 && k < |TopScorerPerTeamSql.before| :: Slot[0] !in TopScorerPerTeamSql.before[k]
  {
    var p := TopScorerPerTeamSql.before;
    assert Slot[0] !in p[4];
    assert Slot[0] !in p[5];
    assert Slot[0] !in p[6];
    assert Slot[0] !in p[7];
  }

  lemma BraceFreeRangeTopScorerPerTeamHead8()
    ensures forall k | 8 <= k < 9 && k < |TopScorerPerTeamSql.before| :: Slot[0] !in TopScorerPerTeamSql.before[k]
  {
    var p := TopScorerPerTeamSql.before;
    assert Slot[0] !in p[8];
  }

  lemma BraceFreeRangeTopScorerPerTeamTail0()
    ensures forall k | 0 <= k < 4 && k < |TopScorerPerTeamSql.after| :: Slot[0] !in TopScorerPerTeamSql.after[k]
  {
    var p := TopScorerPerTeamSql.after;
    assert Slot[0] !in p[0];
    assert Slot[0] !in p[1];
    assert Slot[0] !in p[2];
    assert Slot[0] !in p[3];
  }

  lemma BraceFreeRangeTopScorerPerTeamTail4()
    ensures forall k | 4 <= k < 5 && k < |TopScorerPerTeamSql.after| :: Slot[0] !in TopScorerPerTeamSql.after[k]
  {
    var p := TopScorerPerTeamSql.after;
    assert Slot[0] !in p[4];
  }

  lemma PiecesOfMatchesPlayed()
    ensures MatchesPlayedSql.SlotOnlyOnce()
  {
    HeadOfMatchesPlayed();
    TailOfMatchesPlayed();
    SlotOnceOfPieces(MatchesPlayedSql);
  }

  lemma HeadOfMatchesPlayed()
    ensures BraceFree(MatchesPlayedSql.before)
  {
    assert |MatchesPlayedSql.before| == 7;
    BraceFreeRangeMatchesPlayedHead0();
    BraceFreeRangeMatchesPlayedHead4();
  }

  lemma TailOfMatchesPlayed()
    ensures BraceFree(MatchesPlayedSql.after)
  {
    assert |MatchesPlayedSql.after| == 3;
    BraceFreeRangeMatchesPlayedTail0();
  }

  lemma BraceFreeRangeMatchesPlayedHead0()
    ensures forall k | 0 <= k < 4 && k < |MatchesPlayedSql.before| :: Slot[0] !in MatchesPlayedSql.before[k]
  {
    var p := MatchesPlayedSql.before;
    assert Slot[0] !in p[0];
    assert Slot[0] !in p[1];
    assert Slot[0] !in p[2];
    assert Slot[0] !in p[3];
  }

  lemma BraceFreeRangeMatchesPlayedHead4()
    ensures forall k | 4 <= k < 7 && k < |MatchesPlayedSql.before| :: Slot[0] !in MatchesPlayedSql.before[k]
  {
    var p := MatchesPlayedSql.before;
    assert Slot[0] !in p[4];
    assert Slot[0] !in p[5];
    assert Slot[0] !in p[6];
  }

  lemma BraceFreeRangeMatchesPlayedTail0()
    ensures forall k | 0 <= k < 3 && k < |MatchesPlayedSql.after| :: Slot[0] !in MatchesPlayedSql.after[k]
  {
    var p := MatchesPlayedSql.after;
    assert Slot[0] !in p[0];
    assert Slot[0] !in p[1];
    assert Slot[0] !in p[2];
  }

  /** Every template of the catalog holds `{excl}` exactly once. */
  lemma CatalogSlotsOnce(a: Analysis)
    ensures Occurrences(TemplateOf(a).Text(), Slot) == 1
  {
    TemplateBraceFree(a);
    FillSplicesClause(TemplateOf(a), AllTeamsLabel);
  }

  /** The first analysis of `s` called `name`. */
  function Find(s: seq<Analysis>, name: string): (r: Option<Analysis>)
    ensures r.Some? ==> r.value in s && Name(r.value) == name
    ensures r.None? ==> forall i | 0 <= i < |s| :: Name(s[i]) != name
  {
    if |s| == 0 then None
    else if Name(s[0]) == name then Some(s[0])
    else Find(s[1..], name)
  }

  /**
   * The key lookup `queries[name]`: the analysis whose template the name selects. The
   * catalog's keys are exactly the menu names; any other name is a lookup failure (None).
   */
  function AnalysisNamed(name: string): (r: Option<Analysis>)
    ensures r.Some? <==> name in MenuNames()
    ensures r.Some? ==> Name(r.value) == name
  {
    MenuComplete();
    Find(Menu, name)
  }

  /** Looking a menu name up finds the analysis it names. */
  lemma AnalysisNamedName(a: Analysis)
    ensures AnalysisNamed(Name(a)) == Some(a)
  {
    var i := MenuIndex(a);
    assert MenuNames()[i] == Name(a);
    NameDetermines(AnalysisNamed(Name(a)).value, a);
  }

  /** The menu entry that stands for every team. */
  const AllTeamsLabel: string := "All Teams"

  /** The fixed text that opens the team clause. */
  const ClauseOpen: string := "WHERE e.nomequipe = '"

  /** The WHERE clause spliced into the slot: none for "All Teams", else a test of the team name. */
  function FilterClause(selected: string): (c: string)
    ensures c == "" <==> selected == AllTeamsLabel
    ensures selected != AllTeamsLabel ==> StartsWith(c, ClauseOpen) && c[|c| - 1] == '\''
  {
    if selected == AllTeamsLabel then "" else ClauseOpen + selected + "'"
  }

  /**
   * The team a rendered clause tests, read back the way SQL reads it: the string literal
   * opened by `ClauseOpen` ends at the next quote, and the clause is a plain test of that
   * literal only when this quote is its last character.  Any other shape is `None`: either
   * the literal closes early and the rest is more SQL (or a syntax error), or a doubled quote
   * makes the literal mean something else than the text between the outer quotes.
   */
  function ClauseTeam(c: string): Option<string>
  {
    if StartsWith(c, ClauseOpen) && |c| > |ClauseOpen| then
      var body := c[|ClauseOpen|..];
      if '\'' in body && IndexOf(body, '\'') == |body| - 1 then Some(body[..|body| - 1]) else None
    else None
  }

  /** The selection the dashboard's choice stands for. */
  function SelectionOf(selected: string): (s: Selection)
    ensures s.Team? ==> s.name == selected
  {
    if selected == AllTeamsLabel then AllTeams else Team(selected)
  }

  /**
   * For a team name without a quote the clause tests exactly that team, and there is no
   * clause when every team is selected.  The name is spliced in unescaped, so a name holding
   * a quote gives a clause that tests no team as such.
   */
  lemma ClauseNamesSelection(selected: string)
    ensures ClauseTeam(FilterClause(selected)) ==
              if SelectionOf(selected).Team? && '\'' !in selected then Some(selected) else None
  {
    if selected != AllTeamsLabel {
      var c := FilterClause(selected);
      var body := c[|ClauseOpen|..];
      assert c[..|ClauseOpen|] == ClauseOpen;
      assert body == selected + "'";
      if '\'' in selected {
        IndexOfPrefix(selected, "'", '\'');
      } else {
        IndexOfLast(selected, '\'');
        assert body[..|body| - 1] == selected;
      }
    }
  }

  /**
   * A quote in the team name closes the clause's string literal inside the name: the first
   * quote after `ClauseOpen` is the name's own first quote, and text follows it.
   */
  lemma QuotedNameEndsLiteral(selected: string)
    requires '\'' in selected
    ensures var c := FilterClause(selected);
      |c| > |ClauseOpen| && '\'' in c[|ClauseOpen|..] &&
      IndexOf(c[|ClauseOpen|..], '\'') == IndexOf(selected, '\'') < |c| - |ClauseOpen| - 1
  {
    assert selected != AllTeamsLabel;
    var c := FilterClause(selected);
    assert c[|ClauseOpen|..] == selected + "'";
    IndexOfPrefix(selected, "'", '\'');
  }

  /** `template.replace("{excl}", excl)` for the chosen team. */
  function Fill(t: Template, selected: string): string
  {
    Replace(t.Text(), Slot, FilterClause(selected))
  }

  /**
   * Filling a template replaces its one `{excl}` by the clause and changes nothing else;
   * with "All Teams" the slot is simply deleted.
   */
  lemma FillSplicesClause(t: Template, selected: string)
    requires t.SlotOnlyOnce()
    ensures Occurrences(t.Text(), Slot) == 1
    ensures Fill(t, selected) == t.Head() + FilterClause(selected) + t.Tail()
    ensures selected == AllTeamsLabel ==> Fill(t, selected) == t.Head() + t.Tail()
  {
    ReplaceSingleSlot(t.Head(), Slot, t.Tail(), FilterClause(selected));
    assert t.Head() + "" + t.Tail() == t.Head() + t.Tail();
  }

  /** The query run for a menu name and team choice, or None for a name outside the catalog. */
  function Render(name: string, selected: string): (q: Option<string>)
    ensures q.Some? <==> name in MenuNames()
  {
    match AnalysisNamed(name)
    case Some(a) => Some(Fill(TemplateOf(a), selected))
    case None => None
  }

  /**
   * Choosing an analysis from the menu runs its own template, filled for the chosen team:
   * the clause in place of the one `{excl}`, or nothing for "All Teams".
   */
  lemma RenderAnalysis(a: Analysis, selected: string)
    ensures Render(Name(a), selected) == Some(TemplateOf(a).Head() + FilterClause(selected) + TemplateOf(a).Tail())
    ensures selected == AllTeamsLabel ==> Render(Name(a), selected) == Some(TemplateOf(a).Head() + TemplateOf(a).Tail())
  {
    var t := TemplateOf(a);
    RenderIsFill(a, selected);
    TemplateBraceFree(a);
    FillSplicesClause(t, selected);
  }

  /** A menu name selects its own template. */
  lemma RenderIsFill(a: Analysis, selected: string)
    ensures Render(Name(a), selected) == Some(Fill(TemplateOf(a), selected))
  {
    AnalysisNamedName(a);
  }

  function EquipeName(e: Equipe): string
  {
    e.nomequipe
  }

  /** `SELECT DISTINCT nomequipe FROM equipe`, in first-occurrence order. */
  function TeamNames(equipe: seq<Equipe>): seq<string>
  {
    Distinct(Map(equipe, EquipeName))
  }

  /** `['All Teams'] + sorted(names)`: the sidebar's team menu. */
  function TeamMenu(names: seq<string>): (menu: seq<string>)
    ensures |menu| == |names| + 1 && menu[0] == AllTeamsLabel
    ensures IsOrdered(menu[1..], names, LexLe)
  {
    LexLeOrder();
    var sorted := Sort(names, LexLe);
    assert |sorted| == |multiset(sorted)| == |multiset(names)| == |names|;
    var menu := [AllTeamsLabel] + sorted;
    assert menu[1..] == sorted;
    menu
  }

  /** After "All Teams" the store's team names follow in strictly increasing code-point order. */
  lemma TeamMenuStrictlyOrdered(equipe: seq<Equipe>)
    ensures var menu := TeamMenu(TeamNames(equipe));
            forall i, j | 1 <= i < j < |menu| :: LexLt(menu[i], menu[j])
  {
    var names := TeamNames(equipe);
    var menu := TeamMenu(names);
    var sorted := menu[1..];
    PermutationNoDuplicates(names, sorted);
    forall i, j | 1 <= i < j < |menu|
      ensures LexLt(menu[i], menu[j])
    {
      assert menu[i] == sorted[i - 1] && menu[j] == sorted[j - 1];
    }
  }

  /** Every entry after "All Teams" is the name of a team in the store. */
  lemma TeamMenuSound(equipe: seq<Equipe>)
    ensures var menu := TeamMenu(TeamNames(equipe));
            forall i | 1 <= i < |menu| :: exists k :: 0 <= k < |equipe| && equipe[k].nomequipe == menu[i]
  {
    var names := TeamNames(equipe);
    var menu := TeamMenu(names);
    var all := Map(equipe, EquipeName);
    forall i | 1 <= i < |menu|
      ensures exists k :: 0 <= k < |equipe| && equipe[k].nomequipe == menu[i]
    {
      assert menu[1..][i - 1] in multiset(names);
      var k :| 0 <= k < |all| && all[k] == menu[i];
    }
  }

  /** Every team of the store appears in the menu after "All Teams". */
  lemma TeamMenuComplete(equipe: seq<Equipe>)
    ensures forall k | 0 <= k < |equipe| :: equipe[k].nomequipe in TeamMenu(TeamNames(equipe))[1..]
  {
    var sorted := TeamMenu(TeamNames(equipe))[1..];
    var all := Map(equipe, EquipeName);
    forall k | 0 <= k < |equipe|
      ensures equipe[k].nomequipe in sorted
    {
      assert all[k] == equipe[k].nomequipe;
      assert equipe[k].nomequipe in multiset(sorted);
    }
  }

  /** The team menu has one entry per different team name of the store, plus "All Teams". */
  lemma TeamMenuLength(equipe: seq<Equipe>)
    ensures |TeamMenu(TeamNames(equipe))| == |set k | 0 <= k < |equipe| :: equipe[k].nomequipe| + 1
  {
    var all := Map(equipe, EquipeName);
    DistinctCardinality(all);
    assert (set x | x in all) == (set k | 0 <= k < |equipe| :: equipe[k].nomequipe) by {
      forall x | x in all
        ensures x in (set k | 0 <= k < |equipe| :: equipe[k].nomequipe)
      {
        var k :| 0 <= k < |all| && all[k] == x;
      }
      forall k | 0 <= k < |equipe|
        ensures equipe[k].nomequipe in all
      {
        assert all[k] == equipe[k].nomequipe;
      }
    }
  }

  /** The menu does not depend on the order in which the store returns the distinct names. */
  lemma TeamMenuOrderFree(a: seq<string>, b: seq<string>)
    requires multiset(a) == multiset(b)
    ensures TeamMenu(a) == TeamMenu(b)
  {
    LexLeOrder();
    var sa, sb := Sort(a, LexLe), Sort(b, LexLe);
    SortedUnique(sa, sb, LexLe);
  }
}
