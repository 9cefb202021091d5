/** The Code::Stats level formula, `floor(0.025 * sqrt(xp))`, stated over the
    integers: the level is the largest `L` with `1600 * L * L <= xp`. */
module Levels {

  /** Integer square root: the largest `r` with `r * r <= n`. */
  function ISqrt(n: nat): (r: nat)
    ensures r * r <= n < (r + 1) * (r + 1)
    decreases n
  {
    if n < 4 then
      if n == 0 then 0 else 1
    else
      var h := ISqrt(n / 4);
      RootStep(n, h);
      if (2 * h + 1) * (2 * h + 1) <= n then 2 * h + 1 else 2 * h
  }

  /** The root of `n / 4`, doubled, brackets the root of `n` to within one. */
  lemma RootStep(n: nat, h: nat)
    requires h * h <= n / 4 < (h + 1) * (h + 1)
    ensures (2 * h) * (2 * h) <= n < (2 * h + 2) * (2 * h + 2)
  {
    assert 4 * (h * h) <= n;
    assert n < 4 * ((h + 1) * (h + 1));
    assert (2 * h) * (2 * h) == 4 * (h * h);
    assert (2 * h + 2) * (2 * h + 2) == 4 * ((h + 1) * (h + 1));
  }

  /** `a <= b` implies `a * a <= b * b` for non-negative numbers. */
  lemma SquareMonotone(a: nat, b: nat)
    requires a <= b
    ensures a * a <= b * b
  {
    assert a * a <= a * b by { MulLeft(a, a, b); }
    assert a * b <= b * b by { MulLeft(b, a, b); }
  }

  lemma MulLeft(k: nat, a: nat, b: nat)
    requires a <= b
    ensures k * a <= k * b
  {
  }

  /** `(40 * l)` squared is `1600` times `l` squared. */
  lemma Square40(l: nat)
    ensures (40 * l) * (40 * l) == 1600 * (l * l)
  {
  }

  /** If `s` is the integer square root of `n`, then `s / 40` is the largest
      `L` with `1600 * L * L <= n`. */
  lemma RootOver40(n: nat, s: nat)
    requires s * s <= n < (s + 1) * (s + 1)
    ensures 1600 * ((s / 40) * (s / 40)) <= n < 1600 * ((s / 40 + 1) * (s / 40 + 1))
  {
    var l := s / 40;
    assert 40 * l <= s < 40 * (l + 1);
    SquareMonotone(40 * l, s);
    SquareMonotone(s + 1, 40 * (l + 1));
    Square40(l);
    Square40(l + 1);
  }

  /** The level of `xp` experience points; negative input gives level 0. */
  function Level(xp: int): (l: nat)
    ensures xp < 0 ==> l == 0
    ensures xp >= 0 ==> 1600 * (l * l) <= xp < 1600 * ((l + 1) * (l + 1))
  {
    if xp < 0 then 0
    else
      var s := ISqrt(xp);
      RootOver40(xp, s);
      s / 40
  }

  /** For non-negative xp, `k` is at most the level exactly when `1600 * k * k <= xp`:
      the level is the largest such `k`. */
  lemma LevelIsLargest(xp: int, k: nat)
    requires xp >= 0
    ensures 1600 * (k * k) <= xp <==> k <= Level(xp)
  {
    var l := Level(xp);
    if k <= l {
      SquareMonotone(k, l);
    } else {
      SquareMonotone(l + 1, k);
    }
  }

  /** The level never decreases as xp grows. */
  lemma LevelMonotone(a: int, b: int)
    requires a <= b
    ensures Level(a) <= Level(b)
  {
    if a >= 0 {
      LevelIsLargest(b, Level(a));
    }
  }

  /** The documented anchor values: 0 xp is level 0, 1,000,000 xp is level 25,
      and every negative xp is level 0. The million is passed in rather than
      written as a literal so that the proof works from `Level`'s contract
      instead of evaluating `ISqrt` step by step on the constant. */
  lemma LevelAnchors(million: int)
    requires million == 1000000
    ensures Level(0) == 0
    ensures Level(million) == 25
    ensures forall xp :: xp < 0 ==> Level(xp) == 0
  {
    var l := Level(million);
    LevelIsLargest(million, 25);
    assert 25 <= l;
    LevelIsLargest(million, 26);
    assert !(26 <= l);
  }
}
