# Player catalog — a verified model

This project models the core of a console application that keeps a catalog of
game players. A **game** is a name, the hours played and a high score. A
**person** is a positive id and a non-blank user name. A **player** is a person
plus an ordered list of games, no two of which have the same name ignoring case.
A **player factory** hands out ids from one shared counter. The **player
manager** holds the list of players. It searches that list by id (linearly, and
by binary search over a copy sorted by id) and by user name. It sorts by total
hours (a bubble sort of a copy) and by highest score (a stable descending sort).
It selects the players of its two reports, and appends new players after a
duplicate-id check.

Modules, one per source file, plus shared vocabulary:

- `Base` (base.dfy): the C# `int` as `int32`, with `Inc` for unchecked
  `x + 1`. It also holds the error values (`InvalidArgument` carries the
  source's exception message), `Result`/`Outcome` in place of exceptions, and
  first-index and no-duplicates facts.
- `Text` (text.dfy): `string.IsNullOrWhiteSpace` (`IsBlank`), using the exact
  set of white-space characters of `char.IsWhiteSpace` in the Basic
  Multilingual Plane. It also holds ordinal case-insensitive equality
  (`SameIgnoringCase`), through an ASCII case fold.
- `Games` (game.dfy): class `Game`, with its validating constructors, setters,
  `AddHours` and `UpdateHighScore`.
- `Persons` (person.dfy): class `Person`, with its validating constructor and
  setters.
- `Players` (player.dfy): class `Player`. Its aggregates (`TotalHours`,
  `HighestScore`) are functions of the game list. Its mutators preserve the
  player invariant `Valid`: a valid identity, valid games and case-insensitively
  distinct names.
- `Factory` (player_factory.dfy): class `PlayerFactory` and its counter
  `nextId`.
- `Ordering` (ordering.dfy): stable sorting by a key. `StableSort` is a
  reference stable sort. `SameRuns` says that two sequences hold, for every key,
  the same elements in the same order. `SortedUnique` proves that a sorted
  sequence with the runs of its input is unique. `BubbleSort` is the catalog's
  bubble sort on keyed values, and it is proved to produce exactly
  `StableSort`.
- `Catalog` (player_manager.dfy): class `PlayerManager`, the searches, the
  sorts, the report selections, `AddPlayer` and `PlayerCount`.

A C# method that throws returns a `Result` or `Outcome` here. An
`InvalidArgument` error carries the message the source throws with. The other
errors carry the game name or the id that the source's message is built from:
`DuplicateGame` and `GameNotFound` stand for the InvalidOperationExceptions of
Player.cs (whose not-found message also names the player), and `DuplicateId`
stands for the refusal that `AddPlayer` prints instead of adding the player. A constructor that validates becomes
a static method `New`/`Create` returning a `Result`, and a constructor `Init`
that requires the validated arguments. Sorting by score descending is sorting
ascending on the negated score (`Key(p, ByScore)`). A stable ascending sort on
that key is what LINQ `OrderByDescending` computes.

## Model

| member | source | states |
|---|---|---|
| Base.Inc | PlayerFactory.cs:33 | `id + 1` in 32-bit arithmetic: congruent to id + 1 modulo 2^32, and larger than id unless id is int.MaxValue |
| Text.IsBlank | Game.cs:24 | `string.IsNullOrWhiteSpace` on a non-null string: the empty string is blank, and a string holding an ASCII letter or digit is not |
| Text.SameIgnoringCase | Player.cs:56 | ordinal case-insensitive equality: every string equals itself, and equal strings have the same length and agree position by position once ASCII letters are folded |
| Base.FirstIndex | Player.cs:71 | the first position holding the value, or the length when the value is absent; no earlier position holds it |
| Games.Game.Init | Game.cs:74-76 | stores exactly the given name, hours and score, and establishes the game invariant (non-blank name, hours ≥ 0, score ≥ 0) |
| Games.Game.New | Game.cs:55-63 | succeeds exactly for a non-blank name, giving 0 hours and score 0; a blank name fails with "Game name cannot be empty." |
| Games.Game.NewWithStats | Game.cs:65-77 | succeeds exactly when the name is non-blank, hours ≥ 0 and score ≥ 0, storing the given values; otherwise fails with the message of the first failing check, in the order name, hours, score |
| Games.Game.SetName | Game.cs:19-28 | a blank name is refused and nothing changes; otherwise only the name changes; the invariant is kept |
| Games.Game.SetHours | Game.cs:30-39 | negative hours are refused and nothing changes; otherwise only the hours change; the invariant is kept |
| Games.Game.SetScore | Game.cs:41-50 | a negative score is refused and nothing changes; otherwise only the score changes; the invariant is kept |
| Games.Game.AddHours | Game.cs:79-90 | a positive increment is added, so hours grow and successive calls accumulate; a non-positive one fails with "Hours must be positive." and leaves the game unchanged; the name and score never change |
| Games.Game.UpdateHighScore | Game.cs:92-99 | the score becomes the larger of the old score and the candidate, never an error; a candidate that is not larger is ignored; the name and hours never change |
| Persons.Person.Init | Person.cs:47-48 | stores exactly the given id and name and establishes id > 0 and a non-blank name |
| Persons.Person.Create | Person.cs:40-49 | succeeds exactly for id > 0 and a non-blank name, storing both; the id is checked first, then the name, each failing with the source's message |
| Persons.Person.SetPlayerId | Person.cs:14-23 | a non-positive id is refused and nothing changes; otherwise only the id changes; the invariant is kept |
| Persons.Person.SetUserName | Person.cs:25-34 | a blank name is refused and nothing changes; otherwise only the name changes; the invariant is kept |
| Players.SumBounds | Player.cs:27 | a sum of non-negative hours is non-negative and at least each of them |
| Players.SumAppend | Player.cs:27 | appending one value adds exactly that value to the sum |
| Players.SumBump | Player.cs:27 | raising one entry by d raises the sum by exactly d |
| Players.HighestOfBounds | Player.cs:32 | the maximum of no scores is 0; otherwise it is one of the scores and at least all of them |
| Players.HighestOfAppendZero | Player.cs:32 | a new zero score leaves the maximum of non-negative scores unchanged |
| Players.HighestOfRaise | Player.cs:32 | keeping the larger of one score and s makes the maximum the larger of the old maximum and s |
| Players.AppendZeroGame | Player.cs:61-62 | appending a valid zero-stat game under a new name keeps all games valid and names distinct, and changes neither total hours nor highest score |
| Players.Player.Init | Player.cs:42-45 | a validated identity with an empty game list |
| Players.Player.New | Player.cs:42-45 | succeeds exactly when the identity is valid (as `Person.Create`), with the given id and name and no games |
| Players.Player.TotalHours | Player.cs:27 | `TotalHoursPlayed` is 0 with no games; its bounds are stated by `TotalHoursBounds` |
| Players.Player.HighestScore | Player.cs:32 | `HighestScore` is 0 with no games; that it is the maximum is stated by `HighestScoreIsMaximum` |
| Players.Player.GetGame | Player.cs:69-72 | a game it returns is one of the player's games and its name equals the requested one ignoring case; it is null exactly when no position matches |
| Players.Player.Locate | Player.cs:71 | a position within the list or equal to its length; a position inside the list holds a game whose name matches ignoring case, and no earlier game matches |
| Players.Player.AddGame | Player.cs:50-64 | a blank name is refused, then a name already present ignoring case; either way the list is unchanged; otherwise exactly one zero-stat game with that name is appended after the unchanged old list; names stay distinct, and total hours and highest score are unchanged |
| Players.Player.AddHoursToGame | Player.cs:77-84 | an absent game is refused; a non-positive increment is refused as `AddHours` does; otherwise only the located game's hours grow by the increment, every game keeps its exact name and its score, and total hours grow by exactly the increment |
| Players.Player.UpdateGameHighScore | Player.cs:89-96 | an absent game is refused; otherwise only the located game's score becomes the larger of it and the candidate, every game keeps its exact name and its hours; highest score becomes the larger of the old highest and the candidate, and never decreases |
| Players.Player.GetAllGames | Player.cs:101-104 | a new collection holding the same games in the same order |
| Players.DistinctGames | Player.cs:56 | in a valid player no game object occurs at two positions, so editing the located game edits no other |
| Players.TotalHoursBounds | Player.cs:27 | total hours are 0 with no games; with non-negative hours they are non-negative and at least the hours of each game |
| Players.HighestScoreIsMaximum | Player.cs:32 | highest score is 0 with no games; otherwise it is the score of some game and no game scores more |
| Players.GetGameIsFirstMatch | Player.cs:69-72 | `GetGame` is null exactly when no name matches ignoring case; otherwise it is the game at the first matching position |
| Factory.PlayerFactory.constructor | PlayerFactory.cs:15 | the counter starts at 1 |
| Factory.PlayerFactory.BumpedPast | PlayerFactory.cs:32-33 | the counter after an explicit id: unchanged when the id is below it, id + 1 modulo 2^32 otherwise, and so max(counter, id + 1) unless the id is int.MaxValue |
| Factory.PlayerFactory.CreatePlayer | PlayerFactory.cs:20-25 | the player gets the counter's old value and the counter moves on by one even when the name is refused; success exactly for a positive counter and non-blank name, with no games |
| Factory.PlayerFactory.CreatePlayerWithId | PlayerFactory.cs:30-38 | the counter is pushed past the id before validation; success exactly for id > 0 and a non-blank name, with exactly that id and name and no games |
| Factory.PlayerFactory.CreatePlayerWithStats | PlayerFactory.cs:43-56 | as `CreatePlayerWithId`, then exactly one game named "Default Game" with the given hours and score; the player is checked before the game |
| Factory.PlayerFactory.CreatePlayerWithGame | PlayerFactory.cs:61-74 | as `CreatePlayerWithId`, then exactly one game with the given name, hours and score; errors in the order id, user name, game name, hours, score |
| Factory.PlayerFactory.ResetIdCounter | PlayerFactory.cs:79-82 | the counter goes back to 1 |
| Factory.ResetThenCreateTwo | PlayerFactory.cs:20-25 | after a reset, two automatic creations get ids 1 and 2 and leave the counter at 3 |
| Ordering.RunAppend | PlayerManager.cs:477-483 | the elements with one key in a concatenation are those of each part, in order |
| Ordering.RunEmpty | PlayerManager.cs:477-483 | the run of a key is empty exactly when no element carries that key |
| Ordering.RunCount | PlayerManager.cs:477-483 | an element occurs as often in a sequence as in the run of its key |
| Ordering.SameRunsPermutation | PlayerManager.cs:465-489 | sequences with the same runs are permutations of each other |
| Ordering.SwapKeepsRuns | PlayerManager.cs:477-483 | exchanging neighbours with different keys keeps every run, so the strict `>` swap never reorders equal keys |
| Ordering.InsertCorrect | PlayerManager.cs:497 | inserting into a sorted sequence keeps it sorted and keeps the runs of the element followed by the sequence |
| Ordering.StableSortCorrect | PlayerManager.cs:497 | the reference sort is sorted and has the runs of its input: a stable sort |
| Ordering.SortedUnique | PlayerManager.cs:465-489 | two sorted sequences with the same runs are equal, so any stable sort gives the reference result |
| Ordering.BubblePass | PlayerManager.cs:475-484 | one inner pass keeps the runs, leaves the already-placed suffix untouched, keeps the prefix below the suffix and ends the prefix with its largest key |
| Ordering.BubbleSort | PlayerManager.cs:465-489 | the bubble sort's result is sorted, has the runs of its input, and equals the reference stable sort |
| Catalog.FindByIdIsFirstMatch | PlayerManager.cs:316-332 | the linear search's answer is null exactly when no player has the id, and otherwise the first player that has it |
| Catalog.FindByUsernameIsFirstMatch | PlayerManager.cs:371-393 | null for a blank name; otherwise null exactly when no user name matches ignoring case, and else the first player that matches |
| Catalog.UniqueIdFound | PlayerManager.cs:316-332 | with unique ids, any player holding the id is the one the linear search returns |
| Catalog.TagCount | PlayerManager.cs:343 | pairing players with their keys keeps each player's multiplicity |
| Catalog.SortedByKey | PlayerManager.cs:343 | the stable sort of the catalog by a key is a permutation of it, ordered by the key, with equal keys in list order |
| Catalog.PlayerOfSorted | PlayerManager.cs:343 | every position of the sorted copy holds a player of the catalog |
| Catalog.SortedPlayer | PlayerManager.cs:343 | every player of the catalog appears in the sorted copy |
| Catalog.Take | PlayerManager.cs:515 | LINQ `Take`: the first min(count, n) elements, none when count ≤ 0 |
| Catalog.Reverse | PlayerManager.cs:552 | LINQ `Reverse`: the same length, element i taken from position n - 1 - i |
| Catalog.PlayerManager.constructor | PlayerManager.cs:19-24 | the catalog starts as the loaded list |
| Catalog.PlayerManager.SearchById | PlayerManager.cs:316-332 | the loop returns `FindById`, the first player with the id or null |
| Catalog.PlayerManager.BinarySearchById | PlayerManager.cs:338-366 | returns a player of the catalog with the id, null exactly when no player has it, and with unique ids the same player as the linear search; the body also checks that each probe stays within [left, right] |
| Catalog.PlayerManager.SearchByUsername | PlayerManager.cs:371-393 | the loop returns `FindByUsername`: null for a blank name, otherwise the first case-insensitive match or null |
| Catalog.PlayerManager.SortByHours | PlayerManager.cs:465-489 | the bubble sort of the copy yields `HoursOrder`, the stable sort by total hours; the catalog is not modified |
| Catalog.PlayerManager.HoursOrder | PlayerManager.cs:465-489 | the order `SortByHours` yields has one entry per player of the catalog; its ordering is stated by `HoursOrderOrdered` |
| Catalog.HoursOrderOrdered | PlayerManager.cs:465-489 | the hours order is a permutation of the catalog, non-decreasing in total hours, with ties in list order |
| Catalog.PlayerManager.SortByScore | PlayerManager.cs:494-498 | one entry per player of the catalog; its ordering and stability are stated by `SortByScoreOrdered` |
| Catalog.SortByScoreOrdered | PlayerManager.cs:494-498 | `SortByScore` is a permutation of the catalog, non-increasing in highest score, with ties in list order |
| Catalog.RankedShows | PlayerManager.cs:517-529 | a report shows the selection in order with ranks 1, 2, …, and "No players available." exactly for an empty selection |
| Catalog.PlayerManager.TopScoresReport | PlayerManager.cs:515-521 | "No players available." exactly when count ≤ 0 or the catalog is empty; otherwise min(count, n) ranked entries |
| Catalog.TopScoresReportSelects | PlayerManager.cs:515-530 | the top-scores report shows the first min(count, n) players of `SortByScore` ranked from 1, nothing for count ≤ 0 or no players, and no player left out scores higher than one shown |
| Catalog.ReversePermutation | PlayerManager.cs:552 | reversing keeps the elements |
| Catalog.DescendingSelection | PlayerManager.cs:552 | a prefix of an hours-ascending permutation read from the end is non-increasing in hours, and nobody left out has more hours than anyone selected |
| Catalog.PlayerManager.MostActiveReport | PlayerManager.cs:552-558 | "No players available." exactly when count ≤ 0 or the catalog is empty; otherwise min(count, n) ranked entries |
| Catalog.MostActiveReportSelects | PlayerManager.cs:552-567 | the most-active report shows min(count, n) players ranked from 1, non-increasing in total hours, nothing for count ≤ 0 or no players, and no player left out has more hours than one shown |
| Catalog.PlayerManager.GenerateMostActivePlayersReport | PlayerManager.cs:552-558 | the selection taken from the bubble sort's result, reversed, is `MostActiveReport` |
| Catalog.PlayerManager.AddPlayer | PlayerManager.cs:50-72 | a blank name is refused first, then an id already present; both leave the list and the counter alone; otherwise the factory moves its counter past the id and, when it accepts, exactly one player with that id, name and no games is appended; unique ids stay unique |
| Catalog.PlayerManager.PlayerCount | PlayerManager.cs:626-629 | the number of players in the list, counted with repetition; 0 exactly for an empty catalog |
| Catalog.PlayerCountIsDistinctIds | PlayerManager.cs:626-629 | with unique ids the player count equals the number of distinct ids |

## Left out

- Loading and saving: the JSON file manager is not part of this model. The catalog's constructor takes the loaded list of players as a parameter instead.
- Logging: every log call is a side effect with no bearing on results, and it is dropped.
- Console interaction: the menus, the program entry point and the prompting loops are not modelled. This covers the loop around `AddPlayer`, the parsing of the typed id, viewing, `UpdatePlayerStats`, `AddGameToPlayer`, `UpdateGameStats`, the search and report menus and saving. `AddPlayer` is modelled from the name and id it receives onward.
- Report rendering: the lines printed for each ranked player and the `:F2` formatting are not modelled; a report is the ranked selection.
- Hours are exact reals, not IEEE doubles. Rounding in sums is not modelled, and neither are NaN and the infinities. The source's `hours < 0` checks (Game.cs:35, 69) let NaN through, and a NaN total would break the total order the bubble sort relies on.
- Case-insensitive comparison folds ASCII letters only; the full Unicode ordinal case mapping is not modelled.
- Null strings: every name is a non-null string. `IsBlank` models `IsNullOrWhiteSpace` on non-null strings only; a null name would be refused by the same check.
- The parameterless constructors used only for deserialization can build objects that skip validation. They are not modelled, so every object here comes from a validating constructor.
- The interfaces `ISearchable`, `ISortable` and `IReportable` declare signatures only and are not modelled.
- `Player` inherits from `Person` in the source; here a `Player` holds its `Person` as `person`, with the same fields and checks.
- The public `Games` setter of `Player`, which can replace the list wholesale and bypass the name check, is not modelled. Every list change goes through `AddGame` or the factory.
- The counter of `PlayerFactory` is static in the source; here it is one `PlayerFactory` object, passed to `AddPlayer`.
- Players.Player.AddGame, Players.Player.AddHoursToGame and Players.Player.UpdateGameHighScore require the player invariant `Valid`, which every validating constructor establishes; players loaded without validation are out of scope.
- Catalog.PlayerManager.SortByHours pairs each player with its total hours once, before sorting, rather than recomputing the total at each comparison; no total changes during the sort, so the result is the same.
- Collection sizes are unbounded; the C# limit of `int` on a list's `Count` is not modelled.
- `ToString` of each class only formats text and is not modelled.
