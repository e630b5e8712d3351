/** The random number generator as an oracle. The engine draws from
    std::mt19937 through uniform distributions and std::shuffle; the model
    makes each draw a nondeterministic choice constrained to exactly the
    range the code asks for, so every property proved holds for every
    sequence of draws. */
module Oracle {

  /** A draw from std::uniform_int_distribution<int>(lo, hi): any integer in
      the closed range [lo, hi]. */
  method UniformInt(lo: int, hi: int) returns (x: int)
    requires lo <= hi
    ensures lo <= x <= hi
  {
    x :| lo <= x <= hi;
  }

  /** The roll realDist(rng) < chance, with realDist the uniform
      distribution on [0, 1): any draw in that range, and the roll succeeds
      exactly when the draw is below `chance`. */
  method BonusRoll(chance: real) returns (draw: real, spawn: bool)
    ensures 0.0 <= draw < 1.0
    ensures spawn <==> draw < chance
  {
    draw :| 0.0 <= draw < 1.0;
    spawn := draw < chance;
  }

  /** std::shuffle: some permutation of s. */
  method Shuffle<T(==)>(s: seq<T>) returns (r: seq<T>)
    ensures |r| == |s| && multiset(r) == multiset(s)
  {
    r :| multiset(r) == multiset(s);
    assert |r| == |multiset(r)| == |multiset(s)| == |s|;
  }
}
