/** The player factory: one counter, `nextId`, shared by every creation. An
    automatic id is the counter's value, after which the counter moves on; an
    explicit id at or beyond the counter pushes the counter past it. Either
    move happens before the player is validated, so it happens even when the
    creation is then refused. */
module Factory {
  import opened Base
  import opened Text
  import opened Games
  import opened Persons
  import opened Players

  const DefaultGameName := "Default Game"

  class PlayerFactory {
    var nextId: int32

    /** The counter starts at 1. */
    constructor()
      ensures nextId == 1
    {
      nextId := 1;
    }

    /** The counter after an explicit id has been supplied: one past the id
        when the id is not below the counter, otherwise unchanged. Unless the
        id is the largest int, where one past it wraps round, this is the
        larger of the counter and id + 1. */
    function BumpedPast(id: int32): (r: int32)
      reads this
      ensures id < Int32Max ==> r >= nextId && r > id
      ensures id >= nextId ==> (r as int - id as int - 1) % 0x1_0000_0000 == 0
      ensures id < nextId ==> r == nextId
      ensures id < Int32Max ==> r as int == if id as int + 1 > nextId as int then id as int + 1 else nextId as int
    {
      if id >= nextId then Inc(id) else nextId
    }

    /** `CreatePlayer(username)`: the player gets the counter's current value
        and the counter moves on by one, whether or not the name is accepted. */
    method CreatePlayer(username: string) returns (r: Result<Player>)
      modifies this
      ensures nextId == Inc(old(nextId))
      ensures r.Ok? <==> old(nextId) > 0 && !IsBlank(username)
      ensures old(nextId) <= 0 ==> r == Fail(InvalidArgument(IdNotPositive))
      ensures old(nextId) > 0 && IsBlank(username) ==> r == Fail(InvalidArgument(UsernameEmpty))
      ensures r.Ok? ==> fresh(r.value) && fresh(r.value.person) && r.value.Valid()
      ensures r.Ok? ==> r.value.person.id == old(nextId) && r.value.person.username == username
      ensures r.Ok? ==> r.value.games == []
    {
      var id := nextId;
      nextId := Inc(nextId);
      r := Player.New(id, username);
    }

    /** `CreatePlayer(id, username)`: the counter is pushed past the given id
        first; then the player is built with exactly that id. */
    method CreatePlayerWithId(id: int32, username: string) returns (r: Result<Player>)
      modifies this
      ensures nextId == old(BumpedPast(id))
      ensures r.Ok? <==> id > 0 && !IsBlank(username)
      ensures id <= 0 ==> r == Fail(InvalidArgument(IdNotPositive))
      ensures id > 0 && IsBlank(username) ==> r == Fail(InvalidArgument(UsernameEmpty))
      ensures r.Ok? ==> fresh(r.value) && fresh(r.value.person) && r.value.Valid()
      ensures r.Ok? ==> r.value.person.id == id && r.value.person.username == username
      ensures r.Ok? ==> r.value.games == []
    {
      if id >= nextId {
        nextId := Inc(id);
      }
      r := Player.New(id, username);
    }

    /** `CreatePlayerWithStats`: as `CreatePlayerWithId`, and then one game
        named "Default Game" holding the given hours and score. The player is
        checked before the game, so a bad id or name wins over bad stats. */
    method CreatePlayerWithStats(id: int32, username: string, hours: real, score: int32)
      returns (r: Result<Player>)
      modifies this
      ensures nextId == old(BumpedPast(id))
      ensures r.Ok? <==> id > 0 && !IsBlank(username) && hours >= 0.0 && score >= 0
      ensures id <= 0 ==> r == Fail(InvalidArgument(IdNotPositive))
      ensures id > 0 && IsBlank(username) ==> r == Fail(InvalidArgument(UsernameEmpty))
      ensures id > 0 && !IsBlank(username) && hours < 0.0 ==> r == Fail(InvalidArgument(HoursNegative))
      ensures id > 0 && !IsBlank(username) && hours >= 0.0 && score < 0 ==> r == Fail(InvalidArgument(ScoreNegative))
      ensures r.Ok? ==> fresh(r.value) && fresh(r.value.person) && r.value.Valid()
      ensures r.Ok? ==> r.value.person.id == id && r.value.person.username == username
      ensures r.Ok? ==> && |r.value.games| == 1 && fresh(r.value.games[0])
                        && r.value.games[0].name == DefaultGameName
                        && r.value.games[0].hours == hours
                        && r.value.games[0].score == score
    {
      assert !IsWhiteSpace(DefaultGameName[0]);
      r := CreatePlayerWithGame(id, username, DefaultGameName, hours, score);
    }

    /** `CreatePlayerWithGame`: as `CreatePlayerWithId`, and then one game
        with the given name, hours and score, appended without the duplicate
        check of `AddGame` (the list is empty at that point). */
    method CreatePlayerWithGame(id: int32, username: string, gameName: string, hours: real, score: int32)
      returns (r: Result<Player>)
      modifies this
      ensures nextId == old(BumpedPast(id))
      ensures r.Ok? <==> id > 0 && !IsBlank(username) && !IsBlank(gameName) && hours >= 0.0 && score >= 0
      ensures id <= 0 ==> r == Fail(InvalidArgument(IdNotPositive))
      ensures id > 0 && IsBlank(username) ==> r == Fail(InvalidArgument(UsernameEmpty))
      ensures id > 0 && !IsBlank(username) && IsBlank(gameName) ==> r == Fail(InvalidArgument(NameEmpty))
      ensures id > 0 && !IsBlank(username) && !IsBlank(gameName) && hours < 0.0 ==> r == Fail(InvalidArgument(HoursNegative))
      ensures id > 0 && !IsBlank(username) && !IsBlank(gameName) && hours >= 0.0 && score < 0 ==> r == Fail(InvalidArgument(ScoreNegative))
      ensures r.Ok? ==> fresh(r.value) && fresh(r.value.person) && r.value.Valid()
      ensures r.Ok? ==> r.value.person.id == id && r.value.person.username == username
      ensures r.Ok? ==> && |r.value.games| == 1 && fresh(r.value.games[0])
                        && r.value.games[0].name == gameName
                        && r.value.games[0].hours == hours
                        && r.value.games[0].score == score
    {
      if id >= nextId {
        nextId := Inc(id);
      }
      var made := Player.New(id, username);
      if made.Fail? {
        return Fail(made.error);
      }
      var player := made.value;
      var game := Game.NewWithStats(gameName, hours, score);
      if game.Fail? {
        return Fail(game.error);
      }
      player.games := player.games + [game.value];
      r := Ok(player);
    }

    /** `ResetIdCounter`: the counter goes back to 1. */
    method ResetIdCounter()
      modifies this
      ensures nextId == 1
    {
      nextId := 1;
    }
  }

  /** After a reset, two automatic creations hand out the ids 1 and 2 and
      leave the counter at 3. */
  method ResetThenCreateTwo(f: PlayerFactory, first: string, second: string)
    returns (a: Result<Player>, b: Result<Player>)
    requires !IsBlank(first) && !IsBlank(second)
    modifies f
    ensures a.Ok? && a.value.person.id == 1
    ensures b.Ok? && b.value.person.id == 2
    ensures f.nextId == 3
  {
    f.ResetIdCounter();
    a := f.CreatePlayer(first);
    b := f.CreatePlayer(second);
  }
}
