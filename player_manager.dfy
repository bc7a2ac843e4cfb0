/** The player catalog: a list of players loaded at start-up, searched by id
    (linearly, and by binary search over a copy sorted by id) and by user
    name, sorted by hours (a bubble sort of a copy) and by score (a stable
    descending sort), reported on, and grown one player at a time with a
    duplicate-id check. */
module Catalog {
  import opened Base
  import opened Text
  import opened Persons
  import opened Players
  import opened Factory
  import opened Ordering

  /** The three orders the catalog sorts by. Scores are sorted descending,
      which is an ascending sort on the negated score. */
  datatype SortKey = ById | ByHours | ByScore

  /** Everything a player's sort keys depend on: the player, its identity
      and its games. */
  ghost function Footprint(ps: seq<Player>): (r: set<object>)
    reads ps
    ensures forall p | p in ps :: p in r && p.person in r && forall g | g in p.games :: g in r
  {
    (set p | p in ps :: p as object)
    + (set p | p in ps :: p.person as object)
    + (set p, g | p in ps && g in p.games :: g as object)
  }

  /** The key a player is sorted by. */
  function Key(p: Player, k: SortKey): real
    reads p, p.person, p.games
  {
    match k
    case ById => p.person.id as real
    case ByHours => p.TotalHours()
    case ByScore => -(p.HighestScore() as real)
  }

  /** Each player paired with its key. */
  function Tag(ps: seq<Player>, k: SortKey): seq<Keyed<Player>>
    reads ps, Footprint(ps)
  {
    seq(|ps|, i requires 0 <= i < |ps| reads ps, Footprint(ps) => Keyed(ps[i], Key(ps[i], k)))
  }

  /** The ids of the players, in list order. */
  function IdsOf(ps: seq<Player>): seq<int32>
    reads set p | p in ps :: p.person
  {
    seq(|ps|, i requires 0 <= i < |ps| reads set p | p in ps :: p.person => ps[i].person.id)
  }

  /** The case-folded user names of the players, in list order. */
  function NameKeysOf(ps: seq<Player>): seq<string>
    reads set p | p in ps :: p.person
  {
    seq(|ps|, i requires 0 <= i < |ps| reads set p | p in ps :: p.person => Fold(ps[i].person.username))
  }

  /** No two players share an id. */
  ghost predicate UniqueIds(ps: seq<Player>)
    reads set p | p in ps :: p.person
  {
    NoDuplicates(IdsOf(ps))
  }

  /** The answer of the linear search by id: the first player with that id,
      or null. */
  function FindById(ps: seq<Player>, id: int32): Player?
    reads set p | p in ps :: p.person
  {
    var i := FirstIndex(IdsOf(ps), id);
    if i < |ps| then ps[i] else null
  }

  /** The answer of the search by user name: null for a blank name, and
      otherwise the first player whose name equals it ignoring case, or
      null. */
  function FindByUsername(ps: seq<Player>, name: string): Player?
    reads set p | p in ps :: p.person
  {
    if IsBlank(name) then null
    else
      var i := FirstIndex(NameKeysOf(ps), Fold(name));
      if i < |ps| then ps[i] else null
  }

  /** `FindById` is the first player with the id, and null exactly when no
      player has it. */
  lemma FindByIdIsFirstMatch(ps: seq<Player>, id: int32)
    ensures FindById(ps, id) == null <==> forall k | 0 <= k < |ps| :: ps[k].person.id != id
    ensures FindById(ps, id) != null ==> exists i | 0 <= i < |ps| ::
      && FindById(ps, id) == ps[i] && ps[i].person.id == id
      && forall k | 0 <= k < i :: ps[k].person.id != id
  {
    var ids := IdsOf(ps);
    assert forall k | 0 <= k < |ps| :: ids[k] == ps[k].person.id;
  }

  /** `FindByUsername` is null for a blank name, and otherwise the first
      player whose name equals it ignoring case, null exactly when there is
      none. */
  lemma FindByUsernameIsFirstMatch(ps: seq<Player>, name: string)
    ensures IsBlank(name) ==> FindByUsername(ps, name) == null
    ensures !IsBlank(name) ==>
      (FindByUsername(ps, name) == null <==> forall k | 0 <= k < |ps| :: !SameIgnoringCase(ps[k].person.username, name))
    ensures FindByUsername(ps, name) != null ==> exists i | 0 <= i < |ps| ::
      && FindByUsername(ps, name) == ps[i] && SameIgnoringCase(ps[i].person.username, name)
      && forall k | 0 <= k < i :: !SameIgnoringCase(ps[k].person.username, name)
  {
    var keys := NameKeysOf(ps);
    assert forall k | 0 <= k < |ps| :: keys[k] == Fold(ps[k].person.username);
  }

  /** With unique ids, a player holding the id is the one the linear search
      finds. */
  lemma UniqueIdFound(ps: seq<Player>, id: int32, k: nat)
    requires UniqueIds(ps) && k < |ps| && ps[k].person.id == id
    ensures FindById(ps, id) == ps[k]
  {
    var ids := IdsOf(ps);
    assert ids[k] == id;
    OnlyOccurrence(ids, k);
  }

  /** A player occurs as often in a list as its tagged form in the tagged
      list. */
  lemma {:induction false} TagCount(ps: seq<Player>, k: SortKey, p: Player)
    ensures multiset(Tag(ps, k))[Keyed(p, Key(p, k))] == multiset(ps)[p]
  {
    if ps != [] {
      var n := |ps| - 1;
      assert Tag(ps, k) == Tag(ps[..n], k) + [Keyed(ps[n], Key(ps[n], k))];
      assert ps == ps[..n] + [ps[n]];
      TagCount(ps[..n], k, p);
    }
  }

  /** The players of `Items(StableSort(Tag(ps, k)))`: a permutation of ps,
      ordered by the key, with players of equal key in their original
      order; tagging it again gives back the sorted tagged list. */
  lemma SortedByKey(ps: seq<Player>, k: SortKey)
    ensures Tag(Items(StableSort(Tag(ps, k))), k) == StableSort(Tag(ps, k))
    ensures multiset(Items(StableSort(Tag(ps, k)))) == multiset(ps)
    ensures forall i, j | 0 <= i < j < |ps| ::
      Key(Items(StableSort(Tag(ps, k)))[i], k) <= Key(Items(StableSort(Tag(ps, k)))[j], k)
    ensures SameRuns(Tag(Items(StableSort(Tag(ps, k))), k), Tag(ps, k))
  {
    var t := Tag(ps, k);
    var s := StableSort(t);
    var r := Items(s);
    StableSortCorrect(t);
    SameRunsPermutation(s, t);
    assert |s| == |t|;
    forall i | 0 <= i < |s|
      ensures s[i].key == Key(s[i].item, k)
    {
      assert s[i] in multiset(t);
      var j :| 0 <= j < |t| && t[j] == s[i];
    }
    assert Tag(r, k) == s;
    forall p | true
      ensures multiset(r)[p] == multiset(ps)[p]
    {
      TagCount(r, k, p);
      TagCount(ps, k, p);
    }
  }

  /** Each position of the sorted copy holds a player of the list. */
  lemma PlayerOfSorted(ps: seq<Player>, k: SortKey, i: nat)
    requires i < |ps|
    ensures Items(StableSort(Tag(ps, k)))[i] in ps
  {
    SortedByKey(ps, k);
    var r := Items(StableSort(Tag(ps, k)));
    assert r[i] in multiset(ps);
  }

  /** Each player of the list is at some position of the sorted copy. */
  lemma SortedPlayer(ps: seq<Player>, k: SortKey, i: nat)
    requires i < |ps|
    ensures ps[i] in Items(StableSort(Tag(ps, k)))
  {
    SortedByKey(ps, k);
    assert ps[i] in multiset(ps);
  }

  /** The first `count` elements, or all of them when there are fewer, and
      none when count is not positive (LINQ `Take`). */
  function Take<T>(xs: seq<T>, count: int32): (r: seq<T>)
    ensures |r| == if count <= 0 then 0 else if count as int < |xs| then count as int else |xs|
    ensures r == xs[..|r|]
  {
    if count <= 0 then []
    else if count as int < |xs| then xs[..count]
    else xs
  }

  /** The elements in the opposite order (LINQ `Reverse`). */
  function Reverse<T>(xs: seq<T>): (r: seq<T>)
    ensures |r| == |xs|
    ensures forall i | 0 <= i < |xs| :: r[i] == xs[|xs| - 1 - i]
  {
    if xs == [] then [] else [xs[|xs| - 1]] + Reverse(xs[..|xs| - 1])
  }

  /** One line of a report: a rank, counted from 1, and a player. */
  datatype Entry = Entry(rank: int, player: Player)

  /** What a report shows: "No players available." or the ranked players. */
  datatype Report = NoPlayersAvailable | Ranking(entries: seq<Entry>)

  /** Ranks a selection of players 1, 2, ... in order. */
  function Ranked(ps: seq<Player>): Report
  {
    if ps == [] then NoPlayersAvailable
    else Ranking(seq(|ps|, i requires 0 <= i < |ps| => Entry(i + 1, ps[i])))
  }

  /** The players of a report, in rank order. */
  function Shown(r: Report): seq<Player>
  {
    match r
    case NoPlayersAvailable => []
    case Ranking(es) => seq(|es|, i requires 0 <= i < |es| => es[i].player)
  }

  class PlayerManager {
    var players: seq<Player>

    /** The catalog starts from the players loaded at start-up. */
    constructor(loaded: seq<Player>)
      ensures players == loaded
    {
      players := loaded;
    }

    /** `SearchById`: a linear scan in list order that stops at the first
        player with the id. */
    method SearchById(id: int32) returns (r: Player?)
      ensures r == FindById(players, id)
    {
      ghost var ids := IdsOf(players);
      var i := 0;
      while i < |players|
        invariant 0 <= i <= |players|
        invariant forall k | 0 <= k < i :: ids[k] != id
      {
        if players[i].person.id == id {
          assert ids[i] == id;
          return players[i];
        }
        i := i + 1;
      }
      r := null;
    }

    /** `BinarySearchById`: binary search over a copy sorted by id (a stable
        ascending sort). It finds a player exactly when some player has the
        id, and with unique ids it finds the same player as the linear
        search. */
    method BinarySearchById(id: int32) returns (r: Player?)
      ensures r != null ==> r in players && r.person.id == id
      ensures r == null <==> forall k | 0 <= k < |players| :: players[k].person.id != id
      ensures UniqueIds(players) ==> r == FindById(players, id)
    {
      var s := StableSort(Tag(players, ById));
      SortedByKey(players, ById);
      var sortedList := Items(s);
      var left := 0;
      var right := |sortedList| - 1;
      while left <= right
        invariant 0 <= left <= |sortedList| && -1 <= right < |sortedList|
        invariant forall k | 0 <= k < left :: sortedList[k].person.id < id
        invariant forall k | right < k < |sortedList| :: sortedList[k].person.id > id
      {
        var mid := left + (right - left) / 2;
        assert left <= mid <= right;
        if sortedList[mid].person.id == id {
          r := sortedList[mid];
          PlayerOfSorted(players, ById, mid);
          if UniqueIds(players) {
            var k :| 0 <= k < |players| && players[k] == r;
            UniqueIdFound(players, id, k);
          }
          return;
        }
        if sortedList[mid].person.id < id {
          left := mid + 1;
        } else {
          right := mid - 1;
        }
      }
      r := null;
      forall k | 0 <= k < |players|
        ensures players[k].person.id != id
      {
        SortedPlayer(players, ById, k);
      }
      FindByIdIsFirstMatch(players, id);
    }

    /** `SearchByUsername`: null for a blank name; otherwise a scan in list
        order for the first name equal to it ignoring case. */
    method SearchByUsername(username: string) returns (r: Player?)
      ensures r == FindByUsername(players, username)
    {
      if IsBlank(username) {
        return null;
      }
      ghost var keys := NameKeysOf(players);
      var i := 0;
      while i < |players|
        invariant 0 <= i <= |players|
        invariant forall k | 0 <= k < i :: keys[k] != Fold(username)
      {
        if SameIgnoringCase(players[i].person.username, username) {
          assert keys[i] == Fold(username);
          return players[i];
        }
        i := i + 1;
      }
      r := null;
    }

    /** The order `SortByHours` produces: the players ascending by total
        hours, players with equal hours in list order. */
    function HoursOrder(): (r: seq<Player>)
      reads this, players, Footprint(players)
      ensures |r| == |players|
    {
      Items(StableSort(Tag(players, ByHours)))
    }

    /** `SortByHours`: a bubble sort of a copy of the list by total hours,
        exchanging neighbours only when the left one has strictly more hours.
        Its result is `HoursOrder`, the stable sort by hours; the list itself
        is left as it was. Each player is paired with its total once, since
        nothing changes a total during the sort. */
    method SortByHours() returns (sorted: seq<Player>)
      ensures sorted == HoursOrder()
    {
      var t := Tag(players, ByHours);
      var tagged := BubbleSort(t);
      assert t == Tag(players, ByHours);
      sorted := Items(tagged);
    }

    /** `SortByScore`: the players ordered by highest score, largest first,
        ties in list order (LINQ `OrderByDescending`, which is stable). */
    function SortByScore(): (r: seq<Player>)
      reads this, players, Footprint(players)
      ensures |r| == |players|
    {
      Items(StableSort(Tag(players, ByScore)))
    }

    /** The selection of the top-scores report: the first `count` players of
        `SortByScore`, ranked from 1. */
    function TopScoresReport(count: int32): (r: Report)
      reads this, players, Footprint(players)
      ensures r.NoPlayersAvailable? <==> count <= 0 || players == []
      ensures r.Ranking? ==> |r.entries| == if count as int < |players| then count as int else |players|
    {
      Ranked(Take(SortByScore(), count))
    }

    /** The selection of the most-active report: the first `count` players
        of the hours order read from the end, ranked from 1. */
    function MostActiveReport(count: int32): (r: Report)
      reads this, players, Footprint(players)
      ensures r.NoPlayersAvailable? <==> count <= 0 || players == []
      ensures r.Ranking? ==> |r.entries| == if count as int < |players| then count as int else |players|
    {
      Ranked(Take(Reverse(HoursOrder()), count))
    }

    /** `GenerateMostActivePlayersReport`, without the printing: the
        selection is taken from the result of the bubble sort, reversed. */
    method GenerateMostActivePlayersReport(count: int32) returns (r: Report)
      ensures r == MostActiveReport(count)
    {
      var sorted := SortByHours();
      r := Ranked(Take(Reverse(sorted), count));
    }

    /** `AddPlayer`, without the console: a blank name is refused before
        anything else, then an id already in the catalog is refused; both
        leave the catalog and the factory's counter alone. Otherwise the
        factory builds the player, moving its counter first; if it refuses
        the id the catalog is unchanged, and if not exactly that player is
        appended. Unique ids stay unique. */
    method AddPlayer(factory: PlayerFactory, id: int32, name: string) returns (o: Outcome)
      modifies this, factory
      ensures IsBlank(name) ==> o == Failed(InvalidArgument(UsernameEmpty))
      ensures !IsBlank(name) && old(FindById(players, id)) != null ==> o == Failed(DuplicateId(id))
      ensures !IsBlank(name) && old(FindById(players, id)) == null ==>
        && factory.nextId == old(factory.BumpedPast(id))
        && o == if id > 0 then Done else Failed(InvalidArgument(IdNotPositive))
      ensures o.Failed? ==> players == old(players)
      ensures (IsBlank(name) || old(FindById(players, id)) != null) ==> factory.nextId == old(factory.nextId)
      ensures o.Done? ==> && |players| == |old(players)| + 1
                          && players[..|old(players)|] == old(players)
                          && fresh(players[|old(players)|])
                          && players[|old(players)|].person.id == id
                          && players[|old(players)|].person.username == name
                          && players[|old(players)|].games == []
                          && players[|old(players)|].Valid()
      ensures old(UniqueIds(players)) ==> UniqueIds(players)
    {
      if IsBlank(name) {
        return Failed(InvalidArgument(UsernameEmpty));
      }
      var found := SearchById(id);
      if found != null {
        return Failed(DuplicateId(id));
      }
      var made := factory.CreatePlayerWithId(id, name);
      if made.Fail? {
        return Failed(made.error);
      }
      ghost var before := players;
      ghost var ids := IdsOf(before);
      FindByIdIsFirstMatch(before, id);
      players := players + [made.value];
      assert IdsOf(players) == ids + [id];
      o := Done;
    }

    /** `GetPlayerCount`: the number of players in the catalog. */
    function PlayerCount(): (r: nat)
      reads this
      ensures r == 0 <==> players == []
      ensures r == |multiset(players)|
    {
      |players|
    }
  }

  /** The players shown by a ranking are the selection, in order, ranked
      from 1; nothing is shown only for an empty selection. */
  lemma RankedShows(ps: seq<Player>)
    ensures Shown(Ranked(ps)) == ps
    ensures Ranked(ps).NoPlayersAvailable? <==> ps == []
    ensures Ranked(ps).Ranking? ==> forall i | 0 <= i < |Ranked(ps).entries| :: Ranked(ps).entries[i].rank == i + 1
  {
  }

  /** Reversing keeps the elements. */
  lemma {:induction false} ReversePermutation<T>(xs: seq<T>)
    ensures multiset(Reverse(xs)) == multiset(xs)
  {
    if xs != [] {
      var n := |xs| - 1;
      ReversePermutation(xs[..n]);
      assert xs == xs[..n] + [xs[n]];
    }
  }

  /** `SortByScore` is a permutation of the catalog, ordered by highest
      score with the largest first, and players with the same highest score
      keep their order in the catalog. */
  lemma SortByScoreOrdered(m: PlayerManager)
    ensures multiset(m.SortByScore()) == multiset(m.players)
    ensures forall a, b | 0 <= a < b < |m.SortByScore()| ::
      m.SortByScore()[a].HighestScore() >= m.SortByScore()[b].HighestScore()
    ensures SameRuns(Tag(m.SortByScore(), ByScore), Tag(m.players, ByScore))
  {
    SortedByKey(m.players, ByScore);
  }

  /** `HoursOrder` is a permutation of the catalog, ordered by total hours
      with the fewest first, and players with the same total keep their
      order in the catalog. */
  lemma HoursOrderOrdered(m: PlayerManager)
    ensures multiset(m.HoursOrder()) == multiset(m.players)
    ensures forall a, b | 0 <= a < b < |m.HoursOrder()| ::
      m.HoursOrder()[a].TotalHours() <= m.HoursOrder()[b].TotalHours()
    ensures SameRuns(Tag(m.HoursOrder(), ByHours), Tag(m.players, ByHours))
  {
    SortedByKey(m.players, ByHours);
  }

  /** The top-scores report shows the first min(count, n) players of
      `SortByScore`, ranked from 1, with the largest highest score first;
      no player left out has a higher score than any player shown, and
      nothing is shown when count is not positive or the catalog is empty. */
  lemma TopScoresReportSelects(m: PlayerManager, count: int32)
    ensures m.TopScoresReport(count).NoPlayersAvailable? <==> count <= 0 || m.players == []
    ensures |Shown(m.TopScoresReport(count))| ==
      if count <= 0 then 0 else if count as int < |m.players| then count as int else |m.players|
    ensures Shown(m.TopScoresReport(count)) == m.SortByScore()[..|Shown(m.TopScoresReport(count))|]
    ensures m.TopScoresReport(count).Ranking? ==>
      forall i | 0 <= i < |m.TopScoresReport(count).entries| :: m.TopScoresReport(count).entries[i].rank == i + 1
    ensures forall a, q | 0 <= a < |Shown(m.TopScoresReport(count))| && q in m.players && q !in Shown(m.TopScoresReport(count)) ::
      q.HighestScore() <= Shown(m.TopScoresReport(count))[a].HighestScore()
  {
    var sorted := m.SortByScore();
    var selection := Take(sorted, count);
    RankedShows(selection);
    SortByScoreOrdered(m);
    forall a, q | 0 <= a < |selection| && q in m.players && q !in selection
      ensures q.HighestScore() <= selection[a].HighestScore()
    {
      assert q in multiset(sorted);
      var b :| 0 <= b < |sorted| && sorted[b] == q;
      assert b >= |selection|;
    }
  }

  /** The most-active report shows the first min(count, n) players of the
      hours order read from the end, ranked from 1, with the most hours
      first; no player left out has more hours than any player shown, and
      nothing is shown when count is not positive or the catalog is empty. */
  lemma MostActiveReportSelects(m: PlayerManager, count: int32)
    ensures m.MostActiveReport(count).NoPlayersAvailable? <==> count <= 0 || m.players == []
    ensures |Shown(m.MostActiveReport(count))| ==
      if count <= 0 then 0 else if count as int < |m.players| then count as int else |m.players|
    ensures m.MostActiveReport(count).Ranking? ==>
      forall i | 0 <= i < |m.MostActiveReport(count).entries| :: m.MostActiveReport(count).entries[i].rank == i + 1
    ensures forall a, b | 0 <= a < b < |Shown(m.MostActiveReport(count))| ::
      Shown(m.MostActiveReport(count))[a].TotalHours() >= Shown(m.MostActiveReport(count))[b].TotalHours()
    ensures forall a, q | 0 <= a < |Shown(m.MostActiveReport(count))| && q in m.players && q !in Shown(m.MostActiveReport(count)) ::
      q.TotalHours() <= Shown(m.MostActiveReport(count))[a].TotalHours()
  {
    var sorted := m.HoursOrder();
    HoursOrderOrdered(m);
    RankedShows(Take(Reverse(sorted), count));
    DescendingSelection(sorted, m.players, count);
  }

  /** Reading a permutation of ps that is ordered by hours from the end and
      taking a prefix selects players in non-increasing hours, none of them
      with fewer hours than a player of ps left out. */
  lemma DescendingSelection(sorted: seq<Player>, ps: seq<Player>, count: int32)
    requires multiset(sorted) == multiset(ps)
    requires forall a, b | 0 <= a < b < |sorted| :: sorted[a].TotalHours() <= sorted[b].TotalHours()
    ensures forall a, b | 0 <= a < b < |Take(Reverse(sorted), count)| ::
      Take(Reverse(sorted), count)[a].TotalHours() >= Take(Reverse(sorted), count)[b].TotalHours()
    ensures forall a, q | 0 <= a < |Take(Reverse(sorted), count)| && q in ps && q !in Take(Reverse(sorted), count) ::
      q.TotalHours() <= Take(Reverse(sorted), count)[a].TotalHours()
  {
    var desc := Reverse(sorted);
    ReversePermutation(sorted);
    var selection := Take(desc, count);
    forall a, b | 0 <= a < b < |selection|
      ensures selection[a].TotalHours() >= selection[b].TotalHours()
    {
      assert selection[a] == sorted[|sorted| - 1 - a];
      assert selection[b] == sorted[|sorted| - 1 - b];
    }
    forall a, q | 0 <= a < |selection| && q in ps && q !in selection
      ensures q.TotalHours() <= selection[a].TotalHours()
    {
      assert q in multiset(desc);
      var b :| 0 <= b < |desc| && desc[b] == q;
      assert b >= |selection|;
      assert desc[b] == sorted[|sorted| - 1 - b];
      assert selection[a] == sorted[|sorted| - 1 - a];
    }
  }

  /** A list without repeated ids has as many players as distinct ids. */
  lemma PlayerCountIsDistinctIds(m: PlayerManager)
    requires UniqueIds(m.players)
    ensures m.PlayerCount() == |set p | p in m.players :: p.person.id|
  {
    var ids := IdsOf(m.players);
    assert (set p | p in m.players :: p.person.id) == (set x | x in ids) by {
      assert forall k | 0 <= k < |ids| :: ids[k] == m.players[k].person.id;
    }
    DistinctCount(ids);
  }
}
