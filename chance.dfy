/**
 * The random draws of Random.java as explicit arguments: a uniform draw u in [0, 1) for
 * success(chance) and random(min, max), an index for random(list). Every operation that draws
 * takes its draws as parameters, so its contract holds for every possible outcome.
 */
module Chance {
  import opened Wrappers

  /**
   * success(chance): the draw u succeeds when it is at most the chance. For a draw in [0, 1),
   * a chance of 1 or more always succeeds and a negative chance never does.
   */
  predicate Succeeds(chance: real, u: real): (r: bool)
    ensures 0.0 <= u < 1.0 && chance >= 1.0 ==> r
    ensures chance < 0.0 && 0.0 <= u ==> !r
  {
    u <= chance
  }

  /** The offset (max - min) * u that random(min, max) adds to min. */
  function Scale(width: real, u: real): real {
    width * u
  }

  /**
   * random(min, max): min + (max - min) * u, a value in [min, max) for a draw in [0, 1);
   * an empty or inverted range is an error.
   */
  function Between(min: real, max: real, u: real): (r: Result<real>)
    ensures r.Success? <==> min < max
    ensures r.Success? && 0.0 <= u < 1.0 ==> min <= r.value < max
  {
    if min >= max then Failure("Min can not be bigger than or equal to max")
    else
      InRange(min, max, u);
      Success(min + Scale(max - min, u))
  }

  lemma InRange(min: real, max: real, u: real)
    requires min < max
    ensures 0.0 <= u < 1.0 ==> min <= min + Scale(max - min, u) < max
  {
    if 0.0 <= u < 1.0 {
      NonNegative(max - min, u);
      Below(max - min, u);
    }
  }

  lemma NonNegative(width: real, u: real)
    requires width >= 0.0 && u >= 0.0
    ensures Scale(width, u) >= 0.0
  {
  }

  lemma Below(width: real, u: real)
    requires width > 0.0 && 0.0 <= u < 1.0
    ensures Scale(width, u) < width
  {
    Positive(width, 1.0 - u);
    assert width * (1.0 - u) == width - width * u;
  }

  lemma Positive(x: real, y: real)
    requires x > 0.0 && y > 0.0
    ensures x * y > 0.0
  {
  }

  /** random(list): the element at the drawn index (taken modulo the size); empty lists fail. */
  function Pick<T>(s: seq<T>, i: nat): (r: Result<T>)
    ensures r.Success? <==> s != []
    ensures r.Success? ==> r.value in s
  {
    if s == [] then Failure("Given list can not be empty") else Success(s[i % |s|])
  }

  /** Every element of a list is the outcome of some draw. */
  lemma PickReachesAll<T>(s: seq<T>, x: T)
    requires x in s
    ensures exists i: nat :: Pick(s, i) == Success(x)
  {
    var i :| 0 <= i < |s| && s[i] == x;
    assert i % |s| == i;
    assert Pick(s, i) == Success(x);
  }

  /**
   * random(set): the set walked in its iteration order `s` up to the drawn index (taken modulo
   * the size); an empty set fails.
   */
  function PickMember<T>(s: seq<T>, i: nat): (r: Result<T>)
    ensures r.Success? <==> s != []
    ensures r.Success? ==> r.value in s
    ensures r.Failure? ==> r.error == "Given set can not be empty"
  {
    if s == [] then Failure("Given set can not be empty") else Success(s[i % |s|])
  }
}
