/** The identity part of a player: a positive id and a non-blank user name,
    checked by the constructor and by both setters. */
module Persons {
  import opened Base
  import opened Text

  const IdNotPositive := "Player ID must be positive."
  const UsernameEmpty := "Username cannot be empty."

  class Person {
    var id: int32
    var username: string

    /** What the validating constructor establishes and the setters keep. */
    ghost predicate Valid()
      reads this
    {
      id > 0 && !IsBlank(username)
    }

    /** Stores the fields once the arguments have passed validation. */
    constructor Init(id: int32, username: string)
      requires id > 0 && !IsBlank(username)
      ensures Valid()
      ensures this.id == id && this.username == username
    {
      this.id := id;
      this.username := username;
    }

    /** `Person(int, string)`: the id is checked first, then the name. */
    static method Create(id: int32, name: string) returns (r: Result<Person>)
      ensures r.Ok? <==> id > 0 && !IsBlank(name)
      ensures id <= 0 ==> r == Fail(InvalidArgument(IdNotPositive))
      ensures id > 0 && IsBlank(name) ==> r == Fail(InvalidArgument(UsernameEmpty))
      ensures r.Ok? ==> fresh(r.value) && r.value.Valid()
      ensures r.Ok? ==> r.value.id == id && r.value.username == name
    {
      if id <= 0 {
        return Fail(InvalidArgument(IdNotPositive));
      }
      if IsBlank(name) {
        return Fail(InvalidArgument(UsernameEmpty));
      }
      var p := new Person.Init(id, name);
      r := Ok(p);
    }

    /** The `PlayerID` setter: a non-positive id is refused and nothing changes. */
    method SetPlayerId(value: int32) returns (o: Outcome)
      modifies this
      ensures o == if value <= 0 then Failed(InvalidArgument(IdNotPositive)) else Done
      ensures id == (if o.Done? then value else old(id))
      ensures username == old(username)
      ensures old(Valid()) ==> Valid()
    {
      if value <= 0 {
        return Failed(InvalidArgument(IdNotPositive));
      }
      id := value;
      o := Done;
    }

    /** The `UserName` setter: a blank name is refused and nothing changes. */
    method SetUserName(value: string) returns (o: Outcome)
      modifies this
      ensures o == if IsBlank(value) then Failed(InvalidArgument(UsernameEmpty)) else Done
      ensures username == (if o.Done? then value else old(username))
      ensures id == old(id)
      ensures old(Valid()) ==> Valid()
    {
      if IsBlank(value) {
        return Failed(InvalidArgument(UsernameEmpty));
      }
      username := value;
      o := Done;
    }
  }
}
