/** The unlock evaluator: which block is the highest fully complete one (with
    no gap below it) and which missions are therefore locked. */
module Unlock {
  import opened Scoring

  /** The stars acquired on mission `n`, 0 when none are recorded. */
  function Got(acquired: map<int, int>, n: int): int
  {
    if n in acquired then acquired[n] else 0
  }

  /** Every mission of block `b` has at least the stars it needs. */
  ghost predicate BlockComplete(acquired: map<int, int>, b: int)
  {
    forall n :: 10 * b + 1 <= n <= 10 * b + 10 ==> Got(acquired, n) >= CalcStars(n)
  }

  /** The first block at or after `b` that is not complete (5 when none is). */
  ghost function FirstGapFrom(acquired: map<int, int>, b: int): (g: int)
    requires 0 <= b <= Blocks
    ensures b <= g <= Blocks
    decreases Blocks - b
  {
    if b == Blocks || !BlockComplete(acquired, b) then b else FirstGapFrom(acquired, b + 1)
  }

  /** The value `highestCompletedBlock()` returns. */
  ghost function Highest(acquired: map<int, int>): int
  {
    FirstGapFrom(acquired, 0) - 1
  }

  /** The block currently enabled: the one after the highest complete block, at most the last. */
  ghost function ActiveBlock(acquired: map<int, int>): int
  {
    Min(Highest(acquired) + 1, Blocks - 1)
  }

  /** `isLocked(num)`: the mission lies beyond the last mission of the active block. */
  ghost predicate Locked(acquired: map<int, int>, num: int)
  {
    num > (ActiveBlock(acquired) + 1) * 10
  }

  lemma {:induction false} FirstGapFromIsGap(acquired: map<int, int>, b: int)
    requires 0 <= b <= Blocks
    requires forall c :: 0 <= c < b ==> BlockComplete(acquired, c)
    ensures var g := FirstGapFrom(acquired, b);
      (forall c :: 0 <= c < g ==> BlockComplete(acquired, c)) &&
      (g < Blocks ==> !BlockComplete(acquired, g))
    decreases Blocks - b
  {
    if b < Blocks && BlockComplete(acquired, b) {
      FirstGapFromIsGap(acquired, b + 1);
    }
  }

  /** The highest completed block `h` is in -1..4, blocks 0..h are all complete,
      and block h+1 (when there is one) is not. */
  lemma HighestIsFirstGap(acquired: map<int, int>)
    ensures -1 <= Highest(acquired) <= Blocks - 1
    ensures forall c :: 0 <= c <= Highest(acquired) ==> BlockComplete(acquired, c)
    ensures Highest(acquired) < Blocks - 1 ==> !BlockComplete(acquired, Highest(acquired) + 1)
  {
    FirstGapFromIsGap(acquired, 0);
  }

  /** An incomplete block caps the scan: blocks after it never count, however
      complete they are. */
  lemma HighestBelowGap(acquired: map<int, int>, g: int)
    requires 0 <= g && !BlockComplete(acquired, g)
    ensures Highest(acquired) < g
  {
    HighestIsFirstGap(acquired);
  }

  /** `highestCompletedBlock`: scan the blocks in order and stop at the first
      incomplete one. */
  method HighestCompletedBlock(acquired: map<int, int>) returns (highest: int)
    ensures -1 <= highest <= Blocks - 1
    ensures forall c :: 0 <= c <= highest ==> BlockComplete(acquired, c)
    ensures highest < Blocks - 1 ==> !BlockComplete(acquired, highest + 1)
    ensures highest == Highest(acquired)
  {
    highest := -1;
    var b := 0;
    while b < Blocks
      invariant 0 <= b <= Blocks
      invariant highest == b - 1
      invariant forall c :: 0 <= c < b ==> BlockComplete(acquired, c)
    {
      var start := b * 10 + 1;
      var end := b * 10 + 10;
      var all := true;
      var n := start;
      while n <= end
        invariant start <= n <= end + 1
        invariant all
        invariant forall m :: start <= m < n ==> Got(acquired, m) >= CalcStars(m)
      {
        var maxS := CalcStars(n);
        var got := Got(acquired, n);
        if got < maxS {
          all := false;
          break;
        }
        n := n + 1;
      }
      if all {
        highest := b;
      } else {
        break;
      }
      b := b + 1;
    }
    HighestIsFirstGap(acquired);
  }

  /** `isLocked`. */
  method IsLocked(acquired: map<int, int>, num: int) returns (locked: bool)
    ensures locked == Locked(acquired, num)
    ensures !locked <==>
              (num <= 10 * Blocks && forall c :: 0 <= c < BlockForMission(num) ==> BlockComplete(acquired, c))
  {
    var highest := HighestCompletedBlock(acquired);
    var activeBlock := Min(highest + 1, Blocks - 1);
    var maxMissionEnabled := (activeBlock + 1) * 10;
    locked := num > maxMissionEnabled;
    LockedIff(acquired, num);
  }

  /** A mission is unlocked exactly when it is one of the first 50 and every
      block before its own is complete. */
  lemma LockedIff(acquired: map<int, int>, num: int)
    ensures !Locked(acquired, num) <==>
              (num <= 10 * Blocks && forall c :: 0 <= c < BlockForMission(num) ==> BlockComplete(acquired, c))
  {
    HighestIsFirstGap(acquired);
    var b := BlockForMission(num);
    var h := Highest(acquired);
    if !Locked(acquired, num) {
      assert b <= Min(h + 1, Blocks - 1);
    } else if num <= 10 * Blocks {
      assert b > h + 1;
      assert !BlockComplete(acquired, h + 1);
    }
  }

  /** Missions 1..10 are never locked. */
  lemma FirstBlockNeverLocked(acquired: map<int, int>, num: int)
    requires num <= 10
    ensures !Locked(acquired, num)
  {
    HighestIsFirstGap(acquired);
  }

  /** An incomplete block locks every mission after it. */
  lemma IncompleteBlockLocksLater(acquired: map<int, int>, g: int, num: int)
    requires 0 <= g && !BlockComplete(acquired, g)
    requires num > 10 * g + 10
    ensures Locked(acquired, num)
  {
    HighestBelowGap(acquired, g);
  }

  /** More stars never lock anything: the highest completed block is monotone
      in the stars of every mission. */
  lemma HighestMonotone(a: map<int, int>, b: map<int, int>)
    requires forall n :: Got(a, n) <= Got(b, n)
    ensures Highest(a) <= Highest(b)
  {
    HighestIsFirstGap(a);
    HighestIsFirstGap(b);
  }

  lemma UnlockedStaysUnlocked(a: map<int, int>, b: map<int, int>, num: int)
    requires forall n :: Got(a, n) <= Got(b, n)
    requires !Locked(a, num)
    ensures !Locked(b, num)
  {
    HighestMonotone(a, b);
  }
}
