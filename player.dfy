/** A player: an identity (id and user name) plus an ordered list of games in
    which no two names are equal ignoring case. The aggregates are derived,
    never stored: total hours is the sum over the games, highest score the
    maximum, both 0 when there are no games. */
module Players {
  import opened Base
  import opened Text
  import opened Games
  import opened Persons

  /** The hours of each game, in list order. */
  function HoursOf(gs: seq<Game>): seq<real>
    reads gs
  {
    seq(|gs|, i requires 0 <= i < |gs| reads gs => gs[i].hours)
  }

  /** The high score of each game, in list order. */
  function ScoresOf(gs: seq<Game>): seq<int32>
    reads gs
  {
    seq(|gs|, i requires 0 <= i < |gs| reads gs => gs[i].score)
  }

  /** The case-folded name of each game: the key under which names are
      compared and kept unique. */
  function NameKeys(gs: seq<Game>): seq<string>
    reads gs
  {
    seq(|gs|, i requires 0 <= i < |gs| reads gs => Fold(gs[i].name))
  }

  /** LINQ `Sum` over exact (non-floating) hours. */
  function Sum(xs: seq<real>): real
  {
    if xs == [] then 0.0 else Sum(xs[..|xs| - 1]) + xs[|xs| - 1]
  }

  /** A sum of non-negative values is non-negative and bounds each of them. */
  lemma {:induction false} SumBounds(xs: seq<real>)
    requires forall k | 0 <= k < |xs| :: xs[k] >= 0.0
    ensures Sum(xs) >= 0.0
    ensures forall k | 0 <= k < |xs| :: xs[k] <= Sum(xs)
  {
    if xs != [] {
      var n := |xs| - 1;
      assert forall k | 0 <= k < n :: xs[..n][k] == xs[k];
      SumBounds(xs[..n]);
    }
  }

  /** Appending one value adds exactly that value to the sum. */
  lemma SumAppend(xs: seq<real>, x: real)
    ensures Sum(xs + [x]) == Sum(xs) + x
  {
    assert (xs + [x])[..|xs|] == xs;
  }

  /** Raising one entry by d raises the sum by exactly d. */
  lemma {:induction false} SumBump(xs: seq<real>, i: nat, d: real)
    requires i < |xs|
    ensures Sum(xs[i := xs[i] + d]) == Sum(xs) + d
  {
    var ys := xs[i := xs[i] + d];
    var n := |xs| - 1;
    if i == n {
      assert ys[..n] == xs[..n];
    } else {
      assert ys[..n] == xs[..n][i := xs[i] + d];
      SumBump(xs[..n], i, d);
    }
  }

  /** LINQ `Max` over the scores, or 0 when there are none. */
  function HighestOf(xs: seq<int32>): int32
  {
    if xs == [] then 0
    else if |xs| == 1 then xs[0]
    else Max(xs[0], HighestOf(xs[1..]))
  }

  /** The highest value is 0 for no values, and otherwise one of the values
      and at least all of them. */
  lemma {:induction false} HighestOfBounds(xs: seq<int32>)
    ensures xs == [] ==> HighestOf(xs) == 0
    ensures xs != [] ==> HighestOf(xs) in xs && forall k | 0 <= k < |xs| :: xs[k] <= HighestOf(xs)
  {
    if |xs| > 1 {
      HighestOfBounds(xs[1..]);
      assert forall k | 1 <= k < |xs| :: xs[1..][k - 1] == xs[k];
    }
  }

  /** A new zero score does not change the highest of non-negative scores. */
  lemma HighestOfAppendZero(xs: seq<int32>)
    requires forall k | 0 <= k < |xs| :: xs[k] >= 0
    ensures HighestOf(xs + [0]) == HighestOf(xs)
  {
    var ys := xs + [0];
    HighestOfBounds(xs);
    HighestOfBounds(ys);
    if xs != [] {
      var m, n := HighestOf(xs), HighestOf(ys);
      var j :| 0 <= j < |xs| && xs[j] == m;
      assert ys[j] == m;
      var k :| 0 <= k < |ys| && ys[k] == n;
      if k < |xs| {
        assert xs[k] == n;
      }
    }
  }

  /** Keeping the larger of one score and s makes the highest score the larger
      of the old highest score and s. */
  lemma HighestOfRaise(xs: seq<int32>, i: nat, s: int32)
    requires i < |xs|
    ensures HighestOf(xs[i := Max(xs[i], s)]) == Max(HighestOf(xs), s)
  {
    var ys := xs[i := Max(xs[i], s)];
    HighestOfBounds(xs);
    HighestOfBounds(ys);
    var m, n := HighestOf(xs), HighestOf(ys);
    var j :| 0 <= j < |xs| && xs[j] == m;
    assert ys[j] >= m;
    assert ys[i] >= s;
    var k :| 0 <= k < |ys| && ys[k] == n;
    if k != i {
      assert xs[k] == n;
    }
  }

  /** Appending a key that is not present keeps the keys distinct. */
  lemma NoDuplicatesAppend(xs: seq<string>, x: string)
    requires NoDuplicates(xs) && x !in xs
    ensures NoDuplicates(xs + [x])
  {
  }

  /** Appending a valid zero-stat game under a new name keeps every game
      valid and the names distinct, and changes neither the sum of the hours
      nor the highest score. */
  lemma AppendZeroGame(gs: seq<Game>, g: Game)
    requires forall x | x in gs :: x.Valid()
    requires NoDuplicates(NameKeys(gs)) && Fold(g.name) !in NameKeys(gs)
    requires g.Valid() && g.hours == 0.0 && g.score == 0
    ensures forall x | x in gs + [g] :: x.Valid()
    ensures NoDuplicates(NameKeys(gs + [g]))
    ensures Sum(HoursOf(gs + [g])) == Sum(HoursOf(gs))
    ensures HighestOf(ScoresOf(gs + [g])) == HighestOf(ScoresOf(gs))
  {
    ViewsAppend(gs, g);
    NoDuplicatesAppend(NameKeys(gs), Fold(g.name));
    SumAppend(HoursOf(gs), 0.0);
    var xs := ScoresOf(gs);
    assert forall k | 0 <= k < |xs| :: xs[k] >= 0 by {
      assert forall k | 0 <= k < |gs| :: gs[k] in gs;
    }
    HighestOfAppendZero(xs);
  }

  /** The per-game views of a list with one more game. */
  lemma ViewsAppend(gs: seq<Game>, g: Game)
    ensures NameKeys(gs + [g]) == NameKeys(gs) + [Fold(g.name)]
    ensures HoursOf(gs + [g]) == HoursOf(gs) + [g.hours]
    ensures ScoresOf(gs + [g]) == ScoresOf(gs) + [g.score]
  {
  }

  class Player {
    const person: Person
    var games: seq<Game>

    /** The player's invariant: a valid identity, valid games, and no two
        games whose names are equal ignoring case. */
    ghost predicate Valid()
      reads this, person, games
    {
      && person.Valid()
      && (forall g | g in games :: g.Valid())
      && NoDuplicates(NameKeys(games))
    }

    /** Wraps a validated identity with an empty game list. */
    constructor Init(person: Person)
      requires person.Valid()
      ensures Valid()
      ensures this.person == person && games == []
    {
      this.person := person;
      games := [];
    }

    /** `Player(int, string)`: the identity is validated as Person does, and
        the game list starts empty. */
    static method New(id: int32, name: string) returns (r: Result<Player>)
      ensures r.Ok? <==> id > 0 && !IsBlank(name)
      ensures id <= 0 ==> r == Fail(InvalidArgument(IdNotPositive))
      ensures id > 0 && IsBlank(name) ==> r == Fail(InvalidArgument(UsernameEmpty))
      ensures r.Ok? ==> fresh(r.value) && fresh(r.value.person) && r.value.Valid()
      ensures r.Ok? ==> r.value.person.id == id && r.value.person.username == name
      ensures r.Ok? ==> r.value.games == []
    {
      var identity := Person.Create(id, name);
      if identity.Fail? {
        return Fail(identity.error);
      }
      var p := new Player.Init(identity.value);
      r := Ok(p);
    }

    /** `TotalHoursPlayed`: the sum of the games' hours. */
    function TotalHours(): (r: real)
      reads this, games
      ensures games == [] ==> r == 0.0
    {
      Sum(HoursOf(games))
    }

    /** `HighestScore`: the largest of the games' scores, 0 with no games. */
    function HighestScore(): (r: int32)
      reads this, games
      ensures games == [] ==> r == 0
    {
      HighestOf(ScoresOf(games))
    }

    /** Position of the first game whose name equals `name` ignoring case,
        or the number of games when there is none. */
    function Locate(name: string): (i: nat)
      reads this, games
      ensures i <= |games|
      ensures i < |games| ==> SameIgnoringCase(games[i].name, name)
      ensures forall k | 0 <= k < i :: !SameIgnoringCase(games[k].name, name)
    {
      var keys := NameKeys(games);
      assert forall k | 0 <= k < |games| :: keys[k] == Fold(games[k].name);
      FirstIndex(keys, Fold(name))
    }

    /** `GetGame`: the game at the first position whose name equals `name`
        ignoring case, or null. */
    function GetGame(name: string): (r: Game?)
      reads this, games
      ensures r != null ==> r in games && SameIgnoringCase(r.name, name)
      ensures r == null <==> Locate(name) == |games|
    {
      var i := Locate(name);
      if i < |games| then games[i] else null
    }

    /** `AddGame`: a blank name is refused, then a name already present
        (ignoring case) is refused; in both cases the list is unchanged.
        Otherwise exactly one zero-stat game is appended at the end. */
    method AddGame(name: string) returns (o: Outcome)
      requires Valid()
      modifies this
      ensures Valid()
      ensures o == if IsBlank(name) then Failed(InvalidArgument(NameEmpty))
                   else if old(GetGame(name)) != null then Failed(DuplicateGame(name))
                   else Done
      ensures o.Failed? ==> games == old(games)
      ensures o.Done? ==> |games| == |old(games)| + 1 && games[..|old(games)|] == old(games)
      ensures o.Done? ==> && fresh(games[|old(games)|])
                          && games[|old(games)|].name == name
                          && games[|old(games)|].hours == 0.0
                          && games[|old(games)|].score == 0
      ensures TotalHours() == old(TotalHours()) && HighestScore() == old(HighestScore())
    {
      if IsBlank(name) {
        return Failed(InvalidArgument(NameEmpty));
      }
      if GetGame(name) != null {
        return Failed(DuplicateGame(name));
      }
      assert Fold(name) !in NameKeys(games);
      ghost var before := games;
      var made := Game.New(name);
      var g := made.value;
      games := games + [g];
      AppendZeroGame(before, g);
      assert HoursOf(before) == old(HoursOf(games));
      assert ScoresOf(before) == old(ScoresOf(games));
      o := Done;
    }

    /** `AddHoursToGame`: an unknown game is refused; otherwise the request
        goes to that game's `AddHours`, whose refusal of a non-positive
        increment comes back unchanged. Only the located game changes, and
        the total grows by exactly the increment. */
    method AddHoursToGame(name: string, delta: real) returns (o: Outcome)
      requires Valid()
      modifies games
      ensures Valid() && games == old(games)
      ensures NameKeys(games) == old(NameKeys(games)) && ScoresOf(games) == old(ScoresOf(games))
      ensures forall k | 0 <= k < |games| :: games[k].name == old(games[k].name)
      ensures o == if old(GetGame(name)) == null then Failed(GameNotFound(name))
                   else if delta <= 0.0 then Failed(InvalidArgument(HoursNotPositive))
                   else Done
      ensures o.Failed? ==> HoursOf(games) == old(HoursOf(games))
      ensures o.Done? ==> HoursOf(games) == old(HoursOf(games)[Locate(name) := games[Locate(name)].hours + delta])
      ensures o.Done? ==> TotalHours() == old(TotalHours()) + delta
    {
      var g := GetGame(name);
      if g == null {
        return Failed(GameNotFound(name));
      }
      ghost var i := Locate(name);
      ghost var hs := HoursOf(games);
      ghost var keys := NameKeys(games);
      DistinctGames(this, i);
      o := g.AddHours(delta);
      assert forall k | 0 <= k < |games| :: games[k].name == old(games[k].name);
      assert HoursOf(games) == hs[i := g.hours];
      SumBump(hs, i, delta);
      assert NameKeys(games) == keys;
      assert Locate(name) == i;
    }

    /** `UpdateGameHighScore`: an unknown game is refused; otherwise that
        game keeps the larger of its score and the candidate, and the
        player's highest score becomes the larger of the old one and the
        candidate. Scores never decrease. */
    method UpdateGameHighScore(name: string, candidate: int32) returns (o: Outcome)
      requires Valid()
      modifies games
      ensures Valid() && games == old(games)
      ensures NameKeys(games) == old(NameKeys(games)) && HoursOf(games) == old(HoursOf(games))
      ensures forall k | 0 <= k < |games| :: games[k].name == old(games[k].name)
      ensures o == if old(GetGame(name)) == null then Failed(GameNotFound(name)) else Done
      ensures o.Failed? ==> ScoresOf(games) == old(ScoresOf(games))
      ensures o.Done? ==> ScoresOf(games) == old(ScoresOf(games)[Locate(name) := Max(games[Locate(name)].score, candidate)])
      ensures o.Done? ==> HighestScore() == Max(old(HighestScore()), candidate)
      ensures HighestScore() >= old(HighestScore())
    {
      var g := GetGame(name);
      if g == null {
        return Failed(GameNotFound(name));
      }
      ghost var i := Locate(name);
      ghost var xs := ScoresOf(games);
      ghost var keys := NameKeys(games);
      DistinctGames(this, i);
      g.UpdateHighScore(candidate);
      assert ScoresOf(games) == xs[i := g.score];
      assert NameKeys(games) == keys;
      assert Locate(name) == i;
      HighestOfRaise(xs, i, candidate);
      o := Done;
    }

    /** `GetAllGames`: a new list holding the same games in the same order. */
    method GetAllGames() returns (copy: array<Game>)
      ensures fresh(copy)
      ensures copy[..] == games
    {
      copy := new Game[|games|](i requires 0 <= i < |games| reads this => games[i]);
    }
  }

  /** In a valid player no game object occurs twice in the list. */
  lemma DistinctGames(p: Player, i: nat)
    requires p.Valid() && i < |p.games|
    ensures forall k | 0 <= k < |p.games| && k != i :: p.games[k] != p.games[i]
  {
    var keys := NameKeys(p.games);
    assert forall k | 0 <= k < |p.games| :: keys[k] == Fold(p.games[k].name);
  }

  /** Total hours are 0 with no games; for valid games they are never
      negative and at least the hours of any one game. */
  lemma TotalHoursBounds(p: Player)
    ensures p.games == [] ==> p.TotalHours() == 0.0
    ensures (forall g | g in p.games :: g.hours >= 0.0) ==> p.TotalHours() >= 0.0
    ensures (forall g | g in p.games :: g.hours >= 0.0) ==> forall g | g in p.games :: g.hours <= p.TotalHours()
  {
    var hs := HoursOf(p.games);
    if forall k | 0 <= k < |hs| :: hs[k] >= 0.0 {
      SumBounds(hs);
    }
    assert forall g | g in p.games :: exists k | 0 <= k < |p.games| :: p.games[k] == g && hs[k] == g.hours;
  }

  /** The highest score is 0 with no games; otherwise it is the score of some
      game and no game scores more. */
  lemma HighestScoreIsMaximum(p: Player)
    ensures p.games == [] ==> p.HighestScore() == 0
    ensures p.games != [] ==> exists g | g in p.games :: g.score == p.HighestScore()
    ensures forall g | g in p.games :: g.score <= p.HighestScore()
  {
    var xs := ScoresOf(p.games);
    HighestOfBounds(xs);
    assert forall g | g in p.games :: exists k | 0 <= k < |p.games| :: p.games[k] == g && xs[k] == g.score;
    if p.games != [] {
      var k :| 0 <= k < |xs| && xs[k] == p.HighestScore();
      assert p.games[k] in p.games;
    }
  }

  /** `GetGame` finds the first game whose name equals `name` ignoring case,
      and returns null exactly when no game has that name. */
  lemma GetGameIsFirstMatch(p: Player, name: string)
    ensures p.GetGame(name) == null <==> forall k | 0 <= k < |p.games| :: !SameIgnoringCase(p.games[k].name, name)
    ensures p.GetGame(name) != null ==> exists i | 0 <= i < |p.games| ::
      && p.GetGame(name) == p.games[i]
      && SameIgnoringCase(p.games[i].name, name)
      && forall k | 0 <= k < i :: !SameIgnoringCase(p.games[k].name, name)
  {
    var keys := NameKeys(p.games);
    assert forall k | 0 <= k < |p.games| :: keys[k] == Fold(p.games[k].name);
  }
}
