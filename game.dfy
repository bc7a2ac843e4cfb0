/** A game's statistics: its name, the hours played and the high score.
    Hours only ever grow by positive increments; the high score only ever
    grows, by a "keep the larger" update. */
module Games {
  import opened Base
  import opened Text

  const NameEmpty := "Game name cannot be empty."
  const HoursNegative := "Hours played cannot be negative."
  const ScoreNegative := "High score cannot be negative."
  const HoursNotPositive := "Hours must be positive."

  class Game {
    var name: string
    var hours: real
    var score: int32

    /** What the validating constructors establish and every setter and
        mutator keeps. */
    ghost predicate Valid()
      reads this
    {
      !IsBlank(name) && hours >= 0.0 && score >= 0
    }

    /** Stores the fields once the arguments have passed validation. */
    constructor Init(name: string, hours: real, score: int32)
      requires !IsBlank(name) && hours >= 0.0 && score >= 0
      ensures Valid()
      ensures this.name == name && this.hours == hours && this.score == score
    {
      this.name := name;
      this.hours := hours;
      this.score := score;
    }

    /** `Game(string)`: a game with no hours and no score yet. */
    static method New(name: string) returns (r: Result<Game>)
      ensures r.Ok? <==> !IsBlank(name)
      ensures r.Fail? ==> r.error == InvalidArgument(NameEmpty)
      ensures r.Ok? ==> fresh(r.value) && r.value.Valid()
      ensures r.Ok? ==> r.value.name == name && r.value.hours == 0.0 && r.value.score == 0
    {
      if IsBlank(name) {
        return Fail(InvalidArgument(NameEmpty));
      }
      var g := new Game.Init(name, 0.0, 0);
      r := Ok(g);
    }

    /** `Game(string, double, int)`: the checks run in the order name, hours,
        score, and the first one that fails decides the message. */
    static method NewWithStats(name: string, hours: real, score: int32) returns (r: Result<Game>)
      ensures r.Ok? <==> !IsBlank(name) && hours >= 0.0 && score >= 0
      ensures IsBlank(name) ==> r == Fail(InvalidArgument(NameEmpty))
      ensures !IsBlank(name) && hours < 0.0 ==> r == Fail(InvalidArgument(HoursNegative))
      ensures !IsBlank(name) && hours >= 0.0 && score < 0 ==> r == Fail(InvalidArgument(ScoreNegative))
      ensures r.Ok? ==> fresh(r.value) && r.value.Valid()
      ensures r.Ok? ==> r.value.name == name && r.value.hours == hours && r.value.score == score
    {
      if IsBlank(name) {
        return Fail(InvalidArgument(NameEmpty));
      }
      if hours < 0.0 {
        return Fail(InvalidArgument(HoursNegative));
      }
      if score < 0 {
        return Fail(InvalidArgument(ScoreNegative));
      }
      var g := new Game.Init(name, hours, score);
      r := Ok(g);
    }

    /** The `GameName` setter: a blank name is refused and nothing changes. */
    method SetName(value: string) returns (o: Outcome)
      modifies this
      ensures o == if IsBlank(value) then Failed(InvalidArgument(NameEmpty)) else Done
      ensures name == (if o.Done? then value else old(name))
      ensures hours == old(hours) && score == old(score)
      ensures old(Valid()) ==> Valid()
    {
      if IsBlank(value) {
        return Failed(InvalidArgument(NameEmpty));
      }
      name := value;
      o := Done;
    }

    /** The `HoursPlayed` setter: a negative value is refused and nothing changes. */
    method SetHours(value: real) returns (o: Outcome)
      modifies this
      ensures o == if value < 0.0 then Failed(InvalidArgument(HoursNegative)) else Done
      ensures hours == (if o.Done? then value else old(hours))
      ensures name == old(name) && score == old(score)
      ensures old(Valid()) ==> Valid()
    {
      if value < 0.0 {
        return Failed(InvalidArgument(HoursNegative));
      }
      hours := value;
      o := Done;
    }

    /** The `HighScore` setter: a negative value is refused and nothing changes. */
    method SetScore(value: int32) returns (o: Outcome)
      modifies this
      ensures o == if value < 0 then Failed(InvalidArgument(ScoreNegative)) else Done
      ensures score == (if o.Done? then value else old(score))
      ensures name == old(name) && hours == old(hours)
      ensures old(Valid()) ==> Valid()
    {
      if value < 0 {
        return Failed(InvalidArgument(ScoreNegative));
      }
      score := value;
      o := Done;
    }

    /** `AddHours`: a positive increment accumulates; anything else throws
        and leaves the game as it was. Hours never decrease. */
    method AddHours(delta: real) returns (o: Outcome)
      modifies this
      ensures o == if delta > 0.0 then Done else Failed(InvalidArgument(HoursNotPositive))
      ensures hours == if o.Done? then old(hours) + delta else old(hours)
      ensures o.Done? ==> hours > old(hours)
      ensures name == old(name) && score == old(score)
      ensures old(Valid()) ==> Valid()
    {
      if delta > 0.0 {
        hours := hours + delta;
        o := Done;
      } else {
        o := Failed(InvalidArgument(HoursNotPositive));
      }
    }

    /** `UpdateHighScore`: keeps the larger of the old score and the
        candidate; a candidate that is not larger is ignored, never an error. */
    method UpdateHighScore(candidate: int32)
      modifies this
      ensures score >= old(score) && score >= candidate
      ensures score == old(score) || score == candidate
      ensures candidate <= old(score) ==> score == old(score)
      ensures name == old(name) && hours == old(hours)
      ensures old(Valid()) ==> Valid()
    {
      if candidate > score {
        score := candidate;
      }
    }
  }
}
