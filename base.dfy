/** Shared vocabulary of the player catalog: the C# `int` type, the errors the
    catalog raises, result wrappers, and two facts about sequences that several
    components rely on (first match, no duplicates). */
module Base {

  /** The C# `int` type: 32-bit two's complement. */
  newtype int32 = x: int | -0x8000_0000 <= x < 0x8000_0000

  const Int32Min: int32 := -0x8000_0000
  const Int32Max: int32 := 0x7fff_ffff

  /** `x + 1` in unchecked C# arithmetic: the result is congruent to x + 1
      modulo 2^32, so int.MaxValue wraps round to int.MinValue. */
  function Inc(x: int32): (r: int32)
    ensures (r as int - x as int - 1) % 0x1_0000_0000 == 0
    ensures x < Int32Max ==> r > x
  {
    if x == Int32Max then Int32Min else x + 1
  }

  function Max(a: int32, b: int32): int32
  {
    if a < b then b else a
  }

  /** The exceptions the core raises. `InvalidArgument` is an ArgumentException
      carrying the source's message; the other three are the rejections the
      source reports as InvalidOperationException (games) or as a refusal to
      add a player (catalog). */
  datatype Error =
    | InvalidArgument(message: string)
    | DuplicateGame(gameName: string)
    | GameNotFound(gameName: string)
    | DuplicateId(id: int32)

  /** The outcome of an operation that returns a value or throws. */
  datatype Result<+T> = Ok(value: T) | Fail(error: Error)

  /** The outcome of a `void` operation that may throw. */
  datatype Outcome = Done | Failed(error: Error)

  /** The index of the first element equal to x, or |xs| when there is none. */
  function FirstIndex<T(==)>(xs: seq<T>, x: T): (i: nat)
    ensures i <= |xs|
    ensures i < |xs| ==> xs[i] == x
    ensures forall k | 0 <= k < i :: xs[k] != x
    ensures i == |xs| <==> x !in xs
  {
    if xs == [] then 0
    else if xs[0] == x then 0
    else 1 + FirstIndex(xs[1..], x)
  }

  /** No value occurs twice. */
  predicate NoDuplicates<T(==)>(xs: seq<T>)
  {
    forall i, j | 0 <= i < j < |xs| :: xs[i] != xs[j]
  }

  /** In a sequence without duplicates, an occurrence of x is its first one. */
  lemma OnlyOccurrence<T>(xs: seq<T>, k: nat)
    requires NoDuplicates(xs) && k < |xs|
    ensures FirstIndex(xs, xs[k]) == k
  {
  }

  /** A sequence without duplicates has as many elements as distinct values. */
  lemma {:induction false} DistinctCount<T>(xs: seq<T>)
    requires NoDuplicates(xs)
    ensures |(set x | x in xs)| == |xs|
  {
    if xs != [] {
      var n := |xs| - 1;
      DistinctCount(xs[..n]);
      assert (set x | x in xs) == (set x | x in xs[..n]) + {xs[n]};
      assert xs[n] !in xs[..n];
    }
  }
}
