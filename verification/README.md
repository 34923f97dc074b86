# Premier League dashboard and scraper — a Dafny model

This project models two pieces of logic from a small Premier League analytics system.

The first is the query layer of the dashboard (`app.py`):
- the team menu;
- the closed catalog of ten analyses and their SQL templates;
- the rendering that fills each template's `{excl}` slot with an optional
  `WHERE e.nomequipe = '<team>'` clause;
- what each template computes.

Each template's meaning is a pure function over in-memory tables. `equipe`, `joueur`,
`statistiquejoueur` and `resultatmatch` are sequences of records. Joins are nested loops,
and `WHERE` is a filter. `GROUP BY` groups lines by key in first-occurrence order. `SUM`,
`COUNT` and `MAX` are folds over a group. `ORDER BY` is a stable insertion sort, which is
one admissible order among tied rows. `LIMIT` is a prefix.

The second is the table-reshaping logic of the scraper (`scraping.py`):
- de-duplicating team links;
- flattening two-level headers;
- choosing the player column;
- dropping total rows;
- keyword column selection;
- the match column and row filters;
- tagging each team's rows and concatenating them.

A pandas frame is modelled column-wise (`Frames.Frame`): a height and named columns of
optional string cells, where `None` is a missing value. The browser is a function from a
team name to the tables found on that team's page.

Modules:
- `Wrappers`, `Seqs`, `Sorting` and `Text` hold the generic vocabulary. This includes
  Python's `strip`, `split`, `join`, `replace` and substring tests, ASCII lower-casing in
  place of `lower`, and code-point string order.
- `Relational`: join, filter, group and aggregate.
- `Store`: the four tables and their joins.
- `Queries`: the nine analyses.
- `QueryLaws`: properties relating the analyses to the tables and to each other.
- `Catalog`: the menu, templates, rendering and team menu.
- `Frames`: the pandas operations used.
- `Scraping`: the scraper's reshaping steps.

## Model

| member | source | states |
|---|---|---|
| Catalog.MenuComplete | app.py:18-29 | the analysis menu has exactly ten entries, each analysis once |
| Catalog.MenuNamesDistinct | app.py:18-29 | the ten menu labels are pairwise different, so each key of the catalog names one analysis |
| Catalog.AnalysisNamed | app.py:146 | looking a label up in the catalog succeeds exactly when the label is one of the ten menu names, and then yields the analysis with that label |
| Catalog.AnalysisNamedName | app.py:33-138 | every menu label is a catalog key, and it selects its own template |
| Catalog.TemplateBraceFree | app.py:33-138 | in each of the ten template texts, no `{` occurs before or after the `{excl}` slot |
| Catalog.CatalogSlotsOnce | app.py:33-138 | each of the ten template texts contains `{excl}` exactly once |
| Catalog.FilterClause | app.py:141-143 | the clause is empty exactly when "All Teams" is selected; otherwise it starts with `WHERE e.nomequipe = '` and ends with a quote |
| Catalog.ClauseNamesSelection | app.py:141-143 | reading the clause's string literal the way SQL does (up to the first closing quote), a team name without a quote is tested exactly, "All Teams" gives no clause, and a name holding a quote is not tested as such |
| Catalog.QuotedNameEndsLiteral | app.py:143 | a quote in the team name closes the clause's string literal inside the name, at the name's first quote, with text still following it |
| Catalog.FillSplicesClause | app.py:147 | replacing `{excl}` in a template with one slot puts the clause in its place and leaves the text before and after unchanged; with "All Teams" the slot is deleted |
| Catalog.Render | app.py:146-147 | a query is produced exactly when the analysis name is a catalog key |
| Catalog.RenderAnalysis | app.py:140-147 | the rendered query of every analysis is its template's text before the slot, then the filter clause, then the text after the slot; with "All Teams" it is the template with the slot deleted |
| Catalog.TeamMenu | app.py:14 | the team menu is "All Teams" followed by a code-point-sorted permutation of the team names |
| Catalog.TeamMenuStrictlyOrdered | app.py:13-14 | after "All Teams", the menu's team names from `SELECT DISTINCT` are strictly increasing, so no team appears twice |
| Catalog.TeamMenuSound | app.py:13-14 | every team in the menu is the name of some `equipe` row |
| Catalog.TeamMenuComplete | app.py:13-14 | every `equipe` row's name appears in the menu |
| Catalog.TeamMenuLength | app.py:13-14 | the menu is one longer than the number of distinct team names |
| Catalog.TeamMenuOrderFree | app.py:13-14 | the menu does not depend on the order in which `SELECT DISTINCT` returns the names |
| Store.PlayerLines | app.py:37-39 | the player join holds exactly the (player, statistic, team) triples whose ids match |
| Store.RosterLines | app.py:73-74 | the roster join holds exactly the (player, team) pairs whose ids match |
| Store.ResultLines | app.py:82-83 | the result join holds exactly the (team, result) pairs whose ids match |
| Relational.JoinMultiplicity | app.py:38-39 | a join is a bag: a pair satisfying the condition occurs as many times as its left row occurs times its right row occurs, and any other pair never |
| Store.PlayerLinesBag | app.py:37-39 | a connected (player, statistic, team) triple occurs as often as the three rows occur in their tables multiplied together; any other triple never occurs |
| Store.RosterLinesBag | app.py:73-74 | a connected (player, team) pair occurs as often as the two rows occur multiplied together; any other pair never occurs |
| Store.ResultLinesBag | app.py:82-83 | a connected (team, result) pair occurs as often as the two rows occur multiplied together; any other pair never occurs |
| Store.PlayerLinesOnce | app.py:37-39 | when no two rows of a table share a key, each statistic line of a player with a team is exactly one player line, and no other line carries it |
| Store.RosterLinesOnce | app.py:73-74 | when no two rows of a table share a key, each player with a team is exactly one roster line, and no other line carries the player |
| Store.ResultLinesOnce | app.py:82-83 | when no two rows of a table share a key, each result of a stored team is exactly one result line, and no other line carries it |
| Store.PlayerFixesTeam | app.py:41 | when player and team ids are keys, all joined lines of one player carry the same team, so grouping by player id fixes the team columns |
| Relational.Where | app.py:143 | with all teams selected nothing is removed; with team T selected exactly the lines of team T are kept |
| Relational.GroupKeys | app.py:41 | the group keys are the different keys of the lines, each once |
| Relational.GroupRows | app.py:41 | one output row per different key, computed from that key's non-empty group |
| Relational.FilterBeforeGroupRows | app.py:143 | filtering lines to team T before grouping yields exactly the grouped rows of team T |
| Relational.GroupTotals | app.py:36 | the per-group sums add up to the sum over all lines |
| Sorting.Sort | app.py:42 | the result is a permutation of the rows in which each row precedes every row it sorts before |
| Sorting.LimitOfOrderedIsTopN | app.py:42-43 | a prefix of an ordered result holds at most N rows, and none of the omitted rows sorts strictly before a kept one |
| Sorting.SortedUnique | app.py:42 | under an antisymmetric order the sorted result is unique |
| Queries.TopScorers | app.py:34-44 | at most ten player rows, with no omitted player scoring more than a kept one, in non-increasing total goals |
| Queries.MostDecisive | app.py:45-55 | at most ten player rows, with no omitted player more decisive than a kept one, in non-increasing goals plus assists |
| Queries.MostDisciplined | app.py:56-68 | at most ten player rows, with no omitted player having fewer cards than a kept one, in non-decreasing total cards |
| Queries.Nationalities | app.py:69-78 | a permutation of the (team, nationality) counts, ordered by team name and, within a team, by non-increasing count |
| Queries.TotalGoals | app.py:79-87 | a permutation of the per-team goal totals in non-increasing order |
| Queries.Standings | app.py:98-110 | a permutation of the per-team standings in non-increasing points |
| Queries.BestDefenses | app.py:111-119 | a permutation of the per-team goals-conceded totals in non-decreasing order |
| Queries.TopScorerPerTeam | app.py:120-128 | a permutation of the (team, player name) maxima, ordered by team and then by non-increasing maximum |
| Queries.MatchesPlayed | app.py:129-137 | a permutation of the per-team match counts in non-increasing order |
| QueryLaws.ScorerTotalsCoverAllGoals | app.py:36-41 | the per-player goal totals add up to all goals in the joined statistics |
| QueryLaws.DecisiveTotalsSplit | app.py:47 | the per-player decisive totals add up to all goals plus all assists |
| QueryLaws.DisciplineCardsAddUp | app.py:58-60 | every disciplined-player row has total_cartons = jaunes + rouges |
| QueryLaws.NationalitiesCountEveryPlayer | app.py:72-76 | the nationality counts add up to the number of joined roster lines; with `Store.RosterLinesOnce` (each player with a team is one roster line), every such player is counted once |
| QueryLaws.TotalGoalsCoverAllGoals | app.py:80-86 | the team goal totals add up to all goals scored in the joined results |
| QueryLaws.BestDefensesCoverAllGoals | app.py:112-118 | the goals-conceded totals add up to all goals conceded in the joined results |
| QueryLaws.StandingsPoints | app.py:99-104 | every standings row has points = 3 × victoires + nuls |
| QueryLaws.StandingsCountEveryResult | app.py:100-108 | when every result is 'Victoire', 'Nul' or 'Défaite', each team's victoires + nuls + defaites equals its number of result lines |
| QueryLaws.TotalGoalsOfTeam | app.py:79-87 | with team T selected, the goals analysis is the all-teams result restricted to T, so it has at most one row |
| QueryLaws.TotalGoalsOfTeamWithResults | app.py:79-87 | with team T selected and T having a result line, the goals analysis has exactly one row |
| QueryLaws.StandingsOfTeam | app.py:98-110 | with team T selected, the standings are the all-teams standings restricted to T, so there is at most one row |
| QueryLaws.BestDefensesOfTeam | app.py:111-119 | with team T selected, the defenses analysis is the all-teams result restricted to T, with at most one row |
| QueryLaws.MatchesPlayedOfTeam | app.py:129-137 | with team T selected, the matches analysis is the all-teams result restricted to T, with at most one row |
| QueryLaws.NationalitiesOfTeam | app.py:69-78 | with team T selected, the nationality rows are those of T in the all-teams result, every row being T's |
| QueryLaws.TopScorerPerTeamOfTeam | app.py:120-128 | with team T selected, the per-team scorer rows are those of T in the all-teams result, every row being T's |
| QueryLaws.TopScorersOfTeam | app.py:34-44 | with team T selected, the top scorers are the top ten among T's rows of the unfiltered per-player totals |
| QueryLaws.MostDecisiveOfTeam | app.py:45-55 | with team T selected, the most decisive players are the top ten among T's unfiltered per-player rows |
| QueryLaws.MostDisciplinedOfTeam | app.py:56-68 | with team T selected, the most disciplined players are the top ten among T's unfiltered per-player rows |
| QueryLaws.TopScorersOfTeamOnly | app.py:143 | with team T selected, every top-scorer row belongs to T |
| QueryLaws.MostDecisiveOfTeamOnly | app.py:143 | with team T selected, every decisive-player row belongs to T |
| QueryLaws.MostDisciplinedOfTeamOnly | app.py:143 | with team T selected, every disciplined-player row belongs to T |
| QueryLaws.TopScorerPerTeamIsMax | app.py:121-126 | each row's max_buts is the goals of some line of that team and player name, and no such line has more |
| QueryLaws.MatchesPlayedCountsMatches | app.py:130-135 | each team's total_matchs is its number of distinct match ids, at least one and never more than its result lines |
| Scraping.TeamLinks | scraping.py:21-26 | kept links have an href containing "/squads/" and "2024-2025" and a non-empty stripped text, with no name kept twice |
| Scraping.TeamNames | scraping.py:29-32 | the team names are non-empty and pairwise distinct |
| Scraping.TeamNamesFirstOccurrence | scraping.py:21-26 | the team names are the stripped texts of the qualifying links, each at its first occurrence, in page order |
| Scraping.FlattenHeader | scraping.py:50 | a flattened header name never starts or ends with `_` |
| Scraping.FlattenHeaderRoundTrip | scraping.py:50 | for non-empty, already-stripped levels without `_`, splitting the flattened name at `_` gives back the levels |
| Scraping.IsPlayerColumnIff | scraping.py:55 | a column is the player column exactly when its lower-cased name is "player" or starts with "player_" |
| Scraping.PlayerColumn | scraping.py:53-57 | the chosen column is the first whose name qualifies, and none is chosen when no name qualifies |
| Scraping.MentionsTotalIff | scraping.py:65 | the total-row test holds exactly when the lower-cased cell contains "total" |
| Frames.RowsWhere | scraping.py:63-66 | the kept rows are exactly the rows, in order, whose tested cell passes, and the columns are unchanged |
| Scraping.RelevantColumns | scraping.py:69-72 | the selected columns are an order-preserving subsequence: exactly the columns whose lower-cased name contains one of the eleven keywords |
| Scraping.PlayerColumnRelevant | scraping.py:69-72 | the player column always survives the keyword selection |
| Frames.DropAllMissing | scraping.py:73 | exactly the columns holding some value are kept, in order, at the same height |
| Scraping.PlayersOf | scraping.py:47-73 | a squad table yields nothing exactly when it is not a candidate, has no player column, or has no cell in its player column that is present and mentions no total; what it yields is clean: at least one row, a player column whose cells all pass, and only relevant columns that hold some value |
| Scraping.PlayersOfRows | scraping.py:63-73 | what a table yields is exactly its player rows: one row per passing player cell, every column a column of the table cut down to those rows, the player column included, and every relevant column that still holds a value included |
| Scraping.ExtractPlayers | scraping.py:43-75 | the squad frame is no frame exactly when no table yields players; otherwise it is the clean yield of the first table that does |
| Scraping.TableStepAsWritten | scraping.py:46-75 | one turn of the loop as written: a table that is not a candidate leaves the held frame unchanged and the loop goes on |
| Scraping.StepAgrees | scraping.py:46-75 | for a table whose player column holds some value, the loop as written stops with what the table yields, or goes on holding an empty frame when it yields nothing |
| Scraping.ExtractPlayersAgrees | scraping.py:43-77 | when every candidate table has a player column holding some value, the loop as written ends empty exactly when the squad extraction gives no frame, and otherwise both give the same frame |
| Scraping.NoPlayerColumnKept | scraping.py:60-61 | a candidate table without a player column is left in the squad frame by the loop as written |
| Scraping.MissingPlayersKept | scraping.py:63-66 | a candidate table whose player column holds no value is left in the squad frame by the loop as written |
| Scraping.UnlabelledSquadLeaks | scraping.py:46-61 | with a header "Unnamed: 0_level_0 / Player", the loop as written returns the unfiltered table, Squad Total row included, while the corrected extraction returns no frame |
| Scraping.BlankSquadLeaks | scraping.py:63-66 | with an all-missing player column, the loop as written returns the unfiltered table, while the corrected extraction returns no frame |
| Scraping.FirstMatchTable | scraping.py:85-88 | the match table is the first table whose columns mention "Date" and "Comp" and that has a row, or none |
| Frames.SelectByNames | scraping.py:91-93 | the selected column names are the fixed list filtered to the names present, in the fixed list's order |
| Scraping.LeagueRows | scraping.py:95-96 | with a `Comp` column the rows kept are exactly the rows whose competition contains "Premier League", in order, under the same names; without one every row stays |
| Scraping.ExtractMatches | scraping.py:84-96 | no match table gives no frame; a match table without a `Date` column is kept as found; otherwise the columns are exactly the listed ones holding a value on a dated row, in the listed order, so `Comp` survives exactly when a dated row names a competition; the rows are exactly the table's dated rows (the league ones among them when `Comp` survives), each column being the table's column of that name cut down to those rows; every date is present and every competition contains "Premier League" |
| Scraping.MatchesOfRows | scraping.py:90-96 | the match clean-up keeps exactly the dated rows of the table and, when the competition column survives, only the league rows among them; the columns kept are the listed ones with a value on a dated row, in the listed order, so the competition column survives exactly when a dated row has one |
| Scraping.MatchesOfNames | scraping.py:91-94 | `dropna(axis=1, how='all')` after the column selection keeps exactly the listed columns of the table that hold a value on a dated row, in the listed order |
| Frames.Assign | scraping.py:109 | assigning `Team` adds or overwrites one column filled with the team and leaves every other column unchanged |
| Frames.ConcatFrames | scraping.py:111 | the concatenated height is the sum of the heights, the columns are the union of the parts' columns in order of first appearance, and each column stacks the parts' cells, missing where a part lacks it |
| Scraping.TagTeam | scraping.py:109 | a tagged frame has the same height, and its `Team` column holds the team on every row |
| Scraping.StackTeams | scraping.py:109-111 | the stacked frame's height is the sum of the heights of the teams with data, and its columns are the union, in order of first appearance, of those teams' columns each with `Team` added; teams without data contribute nothing |
| Scraping.StackTeamsLabelsRows | scraping.py:109-111 | each team with data contributes one block of rows, after the blocks of the teams before it, every row labelled with that team, and under every other column the block is the team's own cells, or missing cells where its frame lacks the column |
| Scraping.Scrape | scraping.py:37-115 | both season frames are valid, and their heights are the sums of the per-team heights of the teams with data |
| Scraping.ScrapeLabelsPlayers | scraping.py:103-111 | in the players output, every team block comes from a scraped team name, is a clean squad table, is labelled with its team, and holds that table's own cells |

## Left out

- The average-goals analysis (app.py:88-97) is not modelled, because it needs floating-point `AVG` and `ROUND`. Its template text is in the catalog, and its rendering is covered.
- SQLite execution, pandas `read_sql` and the database file are left out. Each analysis is instead a function over in-memory tables.
- SQL `NULL`s are left out, except in `joueur.position` and `joueur.nationalite`, which are `Option<string>` with `None` for `NULL`. Every other column is a plain number or string. The loader in `transfrom&model.py` keeps those columns filled. `nomjoueur`, `Team`, `Result` and `Opponent` go through `dropna`, and the numeric statistics through `fillna(0)`. `id_equipe` and `nomequipe` come from the team-to-id map, and `resultat` from the three-way map onto the `Enum`. A missing key there stops the load. In the nationalities breakdown, `GROUP BY e.nomequipe, j.nationalite` puts every `None` of a team in one group, as SQL groups `NULL`s.
- Tie order under `ORDER BY` is left out, because SQLite does not specify it. `Sorting.Sort` picks one admissible order. The contracts state only what every admissible order shares.
- Bare columns in grouped queries are left out. Examples are `nomjoueur` under `GROUP BY j.idjoueur`, or `nomequipe` under the player grouping. SQLite takes them from some line of the group, and the model takes them from the group's first line. `Store.PlayerFixesTeam` shows that the team is the same on every line when ids are keys.
- Streamlit widgets, layout, the chart cascade and plotly are left out: they are UI.
- SQL injection safety is left out. The clause is spliced in literally with no escaping, and nothing here claims it is safe.
- The per-team query meanings (`Catalog.SelectionOf` and the `QueryLaws` laws for a selected team) assume the team name holds no `'`. With one, the source's query fails to parse or tests something else (`Catalog.QuotedNameEndsLiteral`), and the model does not say what it returns.
- `Text.Lower` folds only the ASCII letters, whereas Python's `str.lower` folds every cased letter. The tests that use it ("player", "total" and the eleven column keywords) are all lower-case ASCII, and no other letter lower-cases into one of them, so the results agree on them.
- Selenium is left out: driver setup, page loads, clicks, sleeps and `driver.back`. `Scraping.Scrape` takes the page of each team as a function `visit`.
- `pd.read_html` is left out: its output tables are inputs. For squad pages these are two-level headers; for match pages they are flat names.
- pandas' flattening of `str(table.columns)` is left out. The candidate tests are modelled as "some header level contains the word".
- CSV writing and all prints are left out: they are file and console I/O.
- Exceptions other than the two the code provokes are left out. Those two are `KeyError` on a missing `Date` column and `.str` on an all-missing player column.
- Duplicate column names within one table are left out. The first column of a name stands for it, as `Frames.ColumnNamed` shows.
- Scraping.Scrape: uses the corrected squad extraction (`Scraping.ExtractPlayers`), not the loop as written. The loop as written is modelled separately by `Scraping.ExtractPlayersAsWritten`.
- Scraping.TeamNames: `all_data` is keyed by team name. Because the names are pairwise distinct, no team overwrites another.
- The database normaliser and loader are left out: they are not part of this model.
- debug.py is left out: it only counts rows.

## Findings

| source | as written | input that shows it | evidently intended | confidence | as-written member | corrected member |
|---|---|---|---|---|---|---|
| scraping.py:48-61 | `players_df = table.copy()` happens before the player column is looked for, and `continue` skips a table without one while leaving it in `players_df` | a squad table whose only header is "Unnamed: 0_level_0" over "Player", with rows "Bukayo Saka" and "Squad Total" (`Scraping.UnlabelledSquad`) | a table without a player column contributes nothing, so the page yields no players | high, not executed | Scraping.UnlabelledSquadLeaks | Scraping.ExtractPlayers |
| scraping.py:63-66 | when the player column holds no value, pandas refuses `.str` on it and the exception handler (lines 79-80) leaves the copied, unfiltered table in `players_df` | a squad table whose "Player" column has only a missing cell next to a "Nation" column (`Scraping.BlankSquad`) | a table with no player names contributes nothing | medium, not executed | Scraping.BlankSquadLeaks | Scraping.ExtractPlayers |
