/** Star totals over the visible-complete missions: the progress bar total and
    the cumulative count each reward shows. */
module Totals {
  import opened Scoring

  lemma HasMember(s: set<int>)
    requires s != {}
    ensures exists x :: x in s
  {
    assert (forall x :: x !in s) ==> s == {};
  }

  /** Sum of the required stars of the missions in `s`. */
  ghost function SetStars(s: set<int>): int
  {
    if s == {} then 0 else HasMember(s); var x :| x in s; CalcStars(x) + SetStars(s - {x})
  }

  /** The sum does not depend on which element is taken out first. */
  lemma {:induction false} SetStarsRemove(s: set<int>, x: int)
    requires x in s
    ensures SetStars(s) == CalcStars(x) + SetStars(s - {x})
    decreases |s|
  {
    var y :| y in s && SetStars(s) == CalcStars(y) + SetStars(s - {y});
    if y != x {
      SetStarsRemove(s - {y}, x);
      SetStarsRemove(s - {x}, y);
      assert s - {y} - {x} == s - {x} - {y};
    }
  }

  /** Each visible mission adds between one and three stars. */
  lemma {:induction false} SetStarsBounds(s: set<int>)
    ensures |s| <= SetStars(s) <= 3 * |s|
    decreases |s|
  {
    if s != {} {
      HasMember(s);
      var x :| x in s;
      SetStarsRemove(s, x);
      SetStarsBounds(s - {x});
    }
  }

  /** `totalStars()`: add the required stars of every visible-complete mission. */
  method TotalStars(visibleCompleted: set<int>) returns (sum: int)
    ensures sum == SetStars(visibleCompleted)
  {
    sum := 0;
    var rest := visibleCompleted;
    while rest != {}
      invariant rest <= visibleCompleted
      invariant sum + SetStars(rest) == SetStars(visibleCompleted)
      decreases rest
    {
      HasMember(rest);
      var n :| n in rest;
      SetStarsRemove(rest, n);
      sum := sum + CalcStars(n);
      rest := rest - {n};
    }
  }

  /** Stars of the visible-complete missions among `1..end`. */
  function VisibleStarsUpTo(visibleCompleted: set<int>, end: int): int
    decreases end
  {
    if end <= 0 then 0
    else VisibleStarsUpTo(visibleCompleted, end - 1)
         + (if end in visibleCompleted then CalcStars(end) else 0)
  }

  /** The reward count loop of `render`: missions 1..end that are visible. */
  method BlockStars(visibleCompleted: set<int>, end: int) returns (blockStars: int)
    ensures blockStars == VisibleStarsUpTo(visibleCompleted, end)
  {
    blockStars := 0;
    var n := 1;
    while n <= end
      invariant n == 1 || 1 <= n <= end + 1
      invariant blockStars == VisibleStarsUpTo(visibleCompleted, n - 1)
    {
      if n in visibleCompleted {
        blockStars := blockStars + CalcStars(n);
      }
      n := n + 1;
    }
  }

  /** The missions in `1..end` that are visible. */
  ghost function VisibleUpTo(visibleCompleted: set<int>, end: int): set<int>
  {
    set n | n in visibleCompleted && 1 <= n <= end
  }

  /** The reward count is the progress total restricted to missions `1..end`. */
  lemma {:induction false} VisibleStarsIsSetStars(visibleCompleted: set<int>, end: int)
    ensures VisibleStarsUpTo(visibleCompleted, end) == SetStars(VisibleUpTo(visibleCompleted, end))
    decreases end
  {
    if end <= 0 {
      assert VisibleUpTo(visibleCompleted, end) == {};
    } else {
      VisibleStarsIsSetStars(visibleCompleted, end - 1);
      var prev := VisibleUpTo(visibleCompleted, end - 1);
      var cur := VisibleUpTo(visibleCompleted, end);
      if end in visibleCompleted {
        assert cur - {end} == prev;
        SetStarsRemove(cur, end);
      } else {
        assert cur == prev;
      }
    }
  }

  /** Once every visible mission lies in `1..end`, the reward count equals the total. */
  lemma RewardCountIsTotal(visibleCompleted: set<int>, end: int)
    requires forall n :: n in visibleCompleted ==> 1 <= n <= end
    ensures VisibleStarsUpTo(visibleCompleted, end) == SetStars(visibleCompleted)
  {
    VisibleStarsIsSetStars(visibleCompleted, end);
    assert VisibleUpTo(visibleCompleted, end) == visibleCompleted;
  }

  /** The visible count over `1..end` never exceeds what those missions need, and
      reaches it exactly when every one of them is visible. */
  lemma {:induction false} VisibleStarsBound(visibleCompleted: set<int>, end: int)
    ensures 0 <= VisibleStarsUpTo(visibleCompleted, end) <= StarsUpTo(end)
    ensures VisibleStarsUpTo(visibleCompleted, end) == StarsUpTo(end) <==>
              forall n :: 1 <= n <= end ==> n in visibleCompleted
    decreases end
  {
    if end > 0 {
      VisibleStarsBound(visibleCompleted, end - 1);
    }
  }
}
