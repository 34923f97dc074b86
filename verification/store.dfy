/**
 * The four tables the dashboard reads, held in memory, and the joins its queries make.
 * Column names are those of the SQLite schema.
 */
module Store {
  import opened Wrappers
  import opened Seqs
  import opened Relational

  datatype Equipe = Equipe(idequipe: int, nomequipe: string, idcompetition: int, idsaison: int)

  datatype Joueur = Joueur(idjoueur: int, nomjoueur: string, position: Option<string>,
                           nationalite: Option<string>, id_equipe: int)

  datatype StatistiqueJoueur = StatistiqueJoueur(idstats: int, idjoueur: int, buts: int, passesdecisives: int,
                                                 nbmatchesplayed: int, cartonsjaunes: int, cartonsrouges: int)

  datatype ResultatMatch = ResultatMatch(idresultat: int, idmatch: int, idequipe: int, butsmarques: int,
                                         butsconcedes: int, resultat: string)

  datatype Db = Db(equipe: seq<Equipe>, joueur: seq<Joueur>, statistiquejoueur: seq<StatistiqueJoueur>,
                   resultatmatch: seq<ResultatMatch>)

  /** A line of `joueur j JOIN statistiquejoueur sj ON j.idjoueur = sj.idjoueur JOIN equipe e ON j.id_equipe = e.idequipe`. */
  datatype PlayerLine = PlayerLine(j: Joueur, sj: StatistiqueJoueur, e: Equipe)

  /** A line of `joueur j JOIN equipe e ON j.id_equipe = e.idequipe`. */
  datatype RosterLine = RosterLine(j: Joueur, e: Equipe)

  /** A line of `equipe e JOIN resultatmatch rm ON e.idequipe = rm.idequipe`. */
  datatype ResultLine = ResultLine(e: Equipe, rm: ResultatMatch)

  predicate StatOf(j: Joueur, sj: StatistiqueJoueur)
  {
    j.idjoueur == sj.idjoueur
  }

  predicate PlaysFor(j: Joueur, e: Equipe)
  {
    j.id_equipe == e.idequipe
  }

  predicate ResultOf(e: Equipe, rm: ResultatMatch)
  {
    e.idequipe == rm.idequipe
  }

  /** The second join condition of the player lines, on a joined player/stat pair. */
  predicate StatPlaysFor(p: (Joueur, StatistiqueJoueur), e: Equipe)
  {
    PlaysFor(p.0, e)
  }

  function AsPlayerLine(q: ((Joueur, StatistiqueJoueur), Equipe)): PlayerLine
  {
    PlayerLine(q.0.0, q.0.1, q.1)
  }

  function AsRosterLine(p: (Joueur, Equipe)): RosterLine
  {
    RosterLine(p.0, p.1)
  }

  function AsResultLine(p: (Equipe, ResultatMatch)): ResultLine
  {
    ResultLine(p.0, p.1)
  }

  /** Exactly the player/stat/team triples the two join conditions connect. */
  function PlayerLines(db: Db): (r: seq<PlayerLine>)
    ensures forall i | 0 <= i < |r| ::
              && r[i].j in db.joueur && r[i].sj in db.statistiquejoueur && r[i].e in db.equipe
              && StatOf(r[i].j, r[i].sj) && PlaysFor(r[i].j, r[i].e)
    ensures forall a, b, c | 0 <= a < |db.joueur| && 0 <= b < |db.statistiquejoueur| && 0 <= c < |db.equipe| ::
              StatOf(db.joueur[a], db.statistiquejoueur[b]) && PlaysFor(db.joueur[a], db.equipe[c]) ==>
              PlayerLine(db.joueur[a], db.statistiquejoueur[b], db.equipe[c]) in r
  {
    var js := Join(db.joueur, db.statistiquejoueur, StatOf);
    var jse := Join(js, db.equipe, StatPlaysFor);
    var r := Map(jse, AsPlayerLine);
    forall a, b, c | 0 <= a < |db.joueur| && 0 <= b < |db.statistiquejoueur| && 0 <= c < |db.equipe| &&
                     StatOf(db.joueur[a], db.statistiquejoueur[b]) && PlaysFor(db.joueur[a], db.equipe[c])
      ensures PlayerLine(db.joueur[a], db.statistiquejoueur[b], db.equipe[c]) in r
    {
      var p := (db.joueur[a], db.statistiquejoueur[b]);
      assert p in js;
      var x :| 0 <= x < |js| && js[x] == p;
      assert (js[x], db.equipe[c]) in jse;
      var y :| 0 <= y < |jse| && jse[y] == (p, db.equipe[c]);
      assert r[y] == PlayerLine(db.joueur[a], db.statistiquejoueur[b], db.equipe[c]);
    }
    r
  }

  /** Exactly the player/team pairs the join condition connects. */
  function RosterLines(db: Db): (r: seq<RosterLine>)
    ensures forall i | 0 <= i < |r| :: r[i].j in db.joueur && r[i].e in db.equipe && PlaysFor(r[i].j, r[i].e)
    ensures forall a, c | 0 <= a < |db.joueur| && 0 <= c < |db.equipe| ::
              PlaysFor(db.joueur[a], db.equipe[c]) ==> RosterLine(db.joueur[a], db.equipe[c]) in r
  {
    var je := Join(db.joueur, db.equipe, PlaysFor);
    var r := Map(je, AsRosterLine);
    forall a, c | 0 <= a < |db.joueur| && 0 <= c < |db.equipe| && PlaysFor(db.joueur[a], db.equipe[c])
      ensures RosterLine(db.joueur[a], db.equipe[c]) in r
    {
      var x :| 0 <= x < |je| && je[x] == (db.joueur[a], db.equipe[c]);
      assert r[x] == RosterLine(db.joueur[a], db.equipe[c]);
    }
    r
  }

  /** Exactly the team/result pairs the join condition connects. */
  function ResultLines(db: Db): (r: seq<ResultLine>)
    ensures forall i | 0 <= i < |r| :: r[i].e in db.equipe && r[i].rm in db.resultatmatch && ResultOf(r[i].e, r[i].rm)
    ensures forall c, m | 0 <= c < |db.equipe| && 0 <= m < |db.resultatmatch| ::
              ResultOf(db.equipe[c], db.resultatmatch[m]) ==> ResultLine(db.equipe[c], db.resultatmatch[m]) in r
  {
    var er := Join(db.equipe, db.resultatmatch, ResultOf);
    var r := Map(er, AsResultLine);
    forall c, m | 0 <= c < |db.equipe| && 0 <= m < |db.resultatmatch| && ResultOf(db.equipe[c], db.resultatmatch[m])
      ensures ResultLine(db.equipe[c], db.resultatmatch[m]) in r
    {
      var x :| 0 <= x < |er| && er[x] == (db.equipe[c], db.resultatmatch[m]);
      assert r[x] == ResultLine(db.equipe[c], db.resultatmatch[m]);
    }
    r
  }

  /**
   * The player lines are a bag, as SQL joins them: a connected triple occurs as often as its
   * player, stat line and team occur in their tables multiplied together, and any other
   * triple never.
   */
  lemma PlayerLinesBag(db: Db, j: Joueur, sj: StatistiqueJoueur, e: Equipe)
    ensures multiset(PlayerLines(db))[PlayerLine(j, sj, e)] ==
              if StatOf(j, sj) && PlaysFor(j, e)
              then multiset(db.joueur)[j] * multiset(db.statistiquejoueur)[sj] * multiset(db.equipe)[e]
              else 0
  {
    var js := Join(db.joueur, db.statistiquejoueur, StatOf);
    var jse := Join(js, db.equipe, StatPlaysFor);
    JoinMultiplicity(db.joueur, db.statistiquejoueur, StatOf, j, sj);
    JoinMultiplicity(js, db.equipe, StatPlaysFor, (j, sj), e);
    MapInjective(jse, AsPlayerLine, ((j, sj), e));
  }

  /** The roster lines are a bag: a player/team pair that plays for it occurs as often as both rows do. */
  lemma RosterLinesBag(db: Db, j: Joueur, e: Equipe)
    ensures multiset(RosterLines(db))[RosterLine(j, e)] ==
              if PlaysFor(j, e) then multiset(db.joueur)[j] * multiset(db.equipe)[e] else 0
  {
    JoinMultiplicity(db.joueur, db.equipe, PlaysFor, j, e);
    MapInjective(Join(db.joueur, db.equipe, PlaysFor), AsRosterLine, (j, e));
  }

  /** The result lines are a bag: a team/result pair that belongs together occurs as often as both rows do. */
  lemma ResultLinesBag(db: Db, e: Equipe, rm: ResultatMatch)
    ensures multiset(ResultLines(db))[ResultLine(e, rm)] ==
              if ResultOf(e, rm) then multiset(db.equipe)[e] * multiset(db.resultatmatch)[rm] else 0
  {
    JoinMultiplicity(db.equipe, db.resultatmatch, ResultOf, e, rm);
    MapInjective(Join(db.equipe, db.resultatmatch, ResultOf), AsResultLine, (e, rm));
  }

  function PlayerTeam(l: PlayerLine): string
  {
    l.e.nomequipe
  }

  function RosterTeam(l: RosterLine): string
  {
    l.e.nomequipe
  }

  function ResultTeam(l: ResultLine): string
  {
    l.e.nomequipe
  }

  /** `idequipe` and `idjoueur` are primary keys: two rows with the same key are the same row. */
  predicate PrimaryKeys(db: Db)
  {
    && (forall a, b | 0 <= a < |db.equipe| && 0 <= b < |db.equipe| ::
          db.equipe[a].idequipe == db.equipe[b].idequipe ==> db.equipe[a] == db.equipe[b])
    && (forall a, b | 0 <= a < |db.joueur| && 0 <= b < |db.joueur| ::
          db.joueur[a].idjoueur == db.joueur[b].idjoueur ==> db.joueur[a] == db.joueur[b])
  }

  /**
   * The primary keys as SQL enforces them: no two rows of `equipe`, `joueur`,
   * `statistiquejoueur` or `resultatmatch` share their key.
   */
  predicate KeysUnique(db: Db)
  {
    && (forall a, b | 0 <= a < b < |db.equipe| :: db.equipe[a].idequipe != db.equipe[b].idequipe)
    && (forall a, b | 0 <= a < b < |db.joueur| :: db.joueur[a].idjoueur != db.joueur[b].idjoueur)
    && (forall a, b | 0 <= a < b < |db.statistiquejoueur| ::
          db.statistiquejoueur[a].idstats != db.statistiquejoueur[b].idstats)
    && (forall a, b | 0 <= a < b < |db.resultatmatch| ::
          db.resultatmatch[a].idresultat != db.resultatmatch[b].idresultat)
  }

  /** Unique keys are primary keys. */
  lemma KeysUniquePrimary(db: Db)
    requires KeysUnique(db)
    ensures PrimaryKeys(db)
  {
    forall a, b | 0 <= a < |db.equipe| && 0 <= b < |db.equipe| && db.equipe[a].idequipe == db.equipe[b].idequipe
      ensures a == b
    {
      if a < b {} else if b < a {}
    }
    forall a, b | 0 <= a < |db.joueur| && 0 <= b < |db.joueur| && db.joueur[a].idjoueur == db.joueur[b].idjoueur
      ensures a == b
    {
      if a < b {} else if b < a {}
    }
  }

  /** A row of a table whose rows are pairwise different occurs in it once. */
  lemma OnceIn<T>(s: seq<T>, i: nat)
    requires i < |s| && NoDuplicates(s)
    ensures multiset(s)[s[i]] == 1
  {
    NoDuplicatesCount(s);
  }

  /**
   * Under unique keys every player with a team is one roster line: the line joining the two
   * occurs once, and no other line carries the player.
   */
  lemma RosterLinesOnce(db: Db, a: nat, c: nat)
    requires KeysUnique(db) && a < |db.joueur| && c < |db.equipe| && PlaysFor(db.joueur[a], db.equipe[c])
    ensures multiset(RosterLines(db))[RosterLine(db.joueur[a], db.equipe[c])] == 1
    ensures forall i | 0 <= i < |RosterLines(db)| :: RosterLines(db)[i].j == db.joueur[a] ==> RosterLines(db)[i].e == db.equipe[c]
  {
    var j, e := db.joueur[a], db.equipe[c];
    RosterLinesBag(db, j, e);
    OnceIn(db.joueur, a);
    OnceIn(db.equipe, c);
    ProductOfOnes(multiset(db.joueur)[j], multiset(db.equipe)[e], 1);
    KeysUniquePrimary(db);
    RosterLinesOnly(db, j, e);
  }

  /** Under the primary keys, a player joins with one team only. */
  lemma RosterLinesOnly(db: Db, j: Joueur, e: Equipe)
    requires PrimaryKeys(db) && j in db.joueur && e in db.equipe && PlaysFor(j, e)
    ensures forall i | 0 <= i < |RosterLines(db)| :: RosterLines(db)[i].j == j ==> RosterLines(db)[i].e == e
  {
    var ls := RosterLines(db);
    forall i | 0 <= i < |ls| && ls[i].j == j
      ensures ls[i].e == e
    {
      SameTeam(db, ls[i].j, ls[i].e, j, e);
    }
  }

  /**
   * Under unique keys every stat line of a player with a team is one player line: the triple
   * occurs once, and no other line carries the stat line.
   */
  lemma PlayerLinesOnce(db: Db, a: nat, b: nat, c: nat)
    requires KeysUnique(db) && a < |db.joueur| && b < |db.statistiquejoueur| && c < |db.equipe|
    requires StatOf(db.joueur[a], db.statistiquejoueur[b]) && PlaysFor(db.joueur[a], db.equipe[c])
    ensures multiset(PlayerLines(db))[PlayerLine(db.joueur[a], db.statistiquejoueur[b], db.equipe[c])] == 1
    ensures forall i | 0 <= i < |PlayerLines(db)| :: PlayerLines(db)[i].sj == db.statistiquejoueur[b] ==>
              PlayerLines(db)[i] == PlayerLine(db.joueur[a], db.statistiquejoueur[b], db.equipe[c])
  {
    var j, sj, e := db.joueur[a], db.statistiquejoueur[b], db.equipe[c];
    PlayerLinesBag(db, j, sj, e);
    OnceIn(db.joueur, a);
    OnceIn(db.statistiquejoueur, b);
    OnceIn(db.equipe, c);
    ProductOfOnes(multiset(db.joueur)[j], multiset(db.statistiquejoueur)[sj], multiset(db.equipe)[e]);
    KeysUniquePrimary(db);
    PlayerLinesOnly(db, j, sj, e);
  }

  lemma ProductOfOnes(x: int, y: int, z: int)
    requires x == 1 && y == 1 && z == 1
    ensures x * y * z == 1
  {
  }

  /** Under the primary keys, a stat line joins with one player and one team only. */
  lemma PlayerLinesOnly(db: Db, j: Joueur, sj: StatistiqueJoueur, e: Equipe)
    requires PrimaryKeys(db) && j in db.joueur && e in db.equipe && StatOf(j, sj) && PlaysFor(j, e)
    ensures forall i | 0 <= i < |PlayerLines(db)| :: PlayerLines(db)[i].sj == sj ==> PlayerLines(db)[i] == PlayerLine(j, sj, e)
  {
    var ls := PlayerLines(db);
    forall i | 0 <= i < |ls| && ls[i].sj == sj
      ensures ls[i] == PlayerLine(j, sj, e)
    {
      SamePlayer(db, ls[i].j, j);
      SameTeam(db, ls[i].j, ls[i].e, j, e);
    }
  }

  /**
   * Under unique keys every result of a stored team is one result line: the pair occurs
   * once, and no other line carries the result.
   */
  lemma ResultLinesOnce(db: Db, c: nat, m: nat)
    requires KeysUnique(db) && c < |db.equipe| && m < |db.resultatmatch| && ResultOf(db.equipe[c], db.resultatmatch[m])
    ensures multiset(ResultLines(db))[ResultLine(db.equipe[c], db.resultatmatch[m])] == 1
    ensures forall i | 0 <= i < |ResultLines(db)| :: ResultLines(db)[i].rm == db.resultatmatch[m] ==> ResultLines(db)[i].e == db.equipe[c]
  {
    var e, rm := db.equipe[c], db.resultatmatch[m];
    ResultLinesBag(db, e, rm);
    OnceIn(db.equipe, c);
    OnceIn(db.resultatmatch, m);
    ProductOfOnes(multiset(db.equipe)[e], multiset(db.resultatmatch)[rm], 1);
    KeysUniquePrimary(db);
    ResultLinesOnly(db, e, rm);
  }

  /** Under the primary keys, a result joins with one team only. */
  lemma ResultLinesOnly(db: Db, e: Equipe, rm: ResultatMatch)
    requires PrimaryKeys(db) && e in db.equipe && ResultOf(e, rm)
    ensures forall i | 0 <= i < |ResultLines(db)| :: ResultLines(db)[i].rm == rm ==> ResultLines(db)[i].e == e
  {
    var ls := ResultLines(db);
    forall i | 0 <= i < |ls| && ls[i].rm == rm
      ensures ls[i].e == e
    {
      var u :| 0 <= u < |db.equipe| && db.equipe[u] == ls[i].e;
      var v :| 0 <= v < |db.equipe| && db.equipe[v] == e;
    }
  }

  /** Two stored players with the same id are the same player. */
  lemma SamePlayer(db: Db, j1: Joueur, j2: Joueur)
    requires PrimaryKeys(db) && j1 in db.joueur && j2 in db.joueur && j1.idjoueur == j2.idjoueur
    ensures j1 == j2
  {
    var x :| 0 <= x < |db.joueur| && db.joueur[x] == j1;
    var y :| 0 <= y < |db.joueur| && db.joueur[y] == j2;
  }

  /** Under the primary keys, a player's id fixes the team of every line the player appears on. */
  lemma PlayerFixesTeam(db: Db)
    requires PrimaryKeys(db)
    ensures var ls := PlayerLines(db);
            forall a, b | 0 <= a < |ls| && 0 <= b < |ls| ::
              ls[a].j.idjoueur == ls[b].j.idjoueur ==> PlayerTeam(ls[a]) == PlayerTeam(ls[b])
  {
    var ls := PlayerLines(db);
    forall a, b | 0 <= a < |ls| && 0 <= b < |ls| && ls[a].j.idjoueur == ls[b].j.idjoueur
      ensures PlayerTeam(ls[a]) == PlayerTeam(ls[b])
    {
      SameTeam(db, ls[a].j, ls[a].e, ls[b].j, ls[b].e);
    }
  }

  /** Two stored players with the same id play for the same stored team. */
  lemma SameTeam(db: Db, j1: Joueur, e1: Equipe, j2: Joueur, e2: Equipe)
    requires PrimaryKeys(db)
    requires j1 in db.joueur && j2 in db.joueur && e1 in db.equipe && e2 in db.equipe
    requires PlaysFor(j1, e1) && PlaysFor(j2, e2) && j1.idjoueur == j2.idjoueur
    ensures e1 == e2
  {
    var x :| 0 <= x < |db.joueur| && db.joueur[x] == j1;
    var y :| 0 <= y < |db.joueur| && db.joueur[y] == j2;
    var u :| 0 <= u < |db.equipe| && db.equipe[u] == e1;
    var v :| 0 <= v < |db.equipe| && db.equipe[v] == e2;
    assert j1 == j2;
  }
}
