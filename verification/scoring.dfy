/** The scoring rule: how many stars a mission needs, which block of ten it
    belongs to, and the cumulative reward ladder built on top of it. */
module Scoring {

  /** Number of blocks of ten missions (and of rewards). */
  const Blocks := 5

  function Min(a: int, b: int): int { if a <= b then a else b }
  function Max(a: int, b: int): int { if a >= b then a else b }

  /** JavaScript's `a % 10`: the remainder has the sign of the dividend. */
  function JsRem10(a: int): (r: int)
    ensures -10 < r < 10
    ensures a >= 0 ==> 0 <= r
    ensures a <= 0 ==> r <= 0
    ensures (a - r) % 10 == 0
  {
    if a >= 0 then a % 10 else -((-a) % 10)
  }

  /** The position 1..10 of a mission inside its block (JavaScript remainder). */
  function Position(num: int): int
  {
    JsRem10(num - 1) + 1
  }

  /** `calcStars`: stars needed by a mission, from its position in a block of ten. */
  function CalcStars(num: int): (r: int)
    ensures 1 <= r <= 3
    ensures num <= 0 ==> r == 1
  {
    var pos := Position(num);
    if pos <= 3 then 1
    else if pos <= 7 then 2
    else 3
  }

  /** For real mission numbers the first three of each block need one star, the
      last three need three, and the four in between need two. */
  lemma CalcStarsPattern(num: int)
    requires num >= 1
    ensures CalcStars(num) == 1 <==> (num - 1) % 10 < 3
    ensures CalcStars(num) == 3 <==> (num - 1) % 10 >= 7
    ensures CalcStars(num) == 2 <==> 3 <= (num - 1) % 10 < 7
  {
  }

  /** The block a mission belongs to: ten missions per block, from 0. */
  function BlockForMission(num: int): (b: int)
    ensures 10 * b + 1 <= num <= 10 * b + 10
  {
    (num - 1) / 10
  }

  /** `n` limited to the range a..b (the lower bound wins when a > b). */
  function Clamp(n: int, a: int, b: int): (r: int)
    ensures a <= b ==> a <= r <= b
    ensures a <= n <= b ==> r == n
    ensures n < a ==> r == a
    ensures a <= b < n ==> r == b
  {
    Max(a, Min(b, n))
  }

  /** Stars needed by missions `1..end` together. */
  function StarsUpTo(end: int): (r: int)
    ensures end <= 0 ==> r == 0
    ensures end >= 0 ==> end <= r <= 3 * end
    decreases end
  {
    if end <= 0 then 0 else StarsUpTo(end - 1) + CalcStars(end)
  }

  /** The stars reward `idx` needs: 20, 40, 60, 80, 100, and 20 outside the table. */
  function Threshold(idx: int): int
  {
    if 0 <= idx < Blocks then [20, 40, 60, 80, 100][idx] else 20
  }

  /** The requirement repeats every ten missions. */
  lemma CalcStarsPeriodic(x: int)
    requires x >= 1
    ensures CalcStars(x + 10) == CalcStars(x)
  {
    assert (x + 9) % 10 == (x - 1) % 10;
  }

  /** Any ten consecutive missions need 20 stars in total (3 x 1 + 4 x 2 + 3 x 3). */
  lemma {:induction false} TenMoreNeedTwenty(x: nat)
    ensures StarsUpTo(x + 10) == StarsUpTo(x) + 20
  {
    if x == 0 {
      assert StarsUpTo(10) == 20;
    } else {
      TenMoreNeedTwenty(x - 1);
      CalcStarsPeriodic(x);
      assert StarsUpTo(x + 10) == StarsUpTo(x + 9) + CalcStars(x + 10);
    }
  }

  /** The first `k` blocks need `20 * k` stars. */
  lemma {:induction false} StarsUpToBlocks(k: nat)
    ensures StarsUpTo(10 * k) == 20 * k
  {
    if k > 0 {
      StarsUpToBlocks(k - 1);
      TenMoreNeedTwenty(10 * (k - 1));
      assert 10 * (k - 1) + 10 == 10 * k;
    }
  }

  /** The reward ladder is exactly the number of stars of all missions up to the
      end of the reward's block: reward `idx` needs every mission `1..10*idx+10`. */
  lemma ThresholdIsBlockStars(idx: int)
    requires 0 <= idx < Blocks
    ensures Threshold(idx) == StarsUpTo(10 * idx + 10) == 20 * (idx + 1)
  {
    StarsUpToBlocks(idx + 1);
  }
}
