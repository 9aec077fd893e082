/** The per-reward counter: the value a reward column shows moves towards a
    target (the visible stars up to the end of its block, capped at its
    threshold), snapping down at once and stepping up one per tick; a second
    delay gates the reveal. Each render and each timer fire is a step of this
    state machine on one reward slot. */
module Rewards {
  import opened Js
  import opened Scoring
  import opened Unlock
  import opened Totals

  /** What a counting tick captured when it was scheduled: the render's target
      and whether the block was complete then. */
  datatype Tick = Tick(target: int, blockComplete: bool)

  /** One reward's entries of `rewardUnlockedPrev`, `rewardDisplay`, `rewardTimers`,
      `rewardRevealDone` and `rewardRevealTimers` (a pending reveal timer always
      captured a complete block, so the slot only records that it is pending). */
  datatype Slot = Slot(
    unlockedPrev: bool,
    display: int,
    tick: Option<Tick>,
    revealDone: bool,
    revealPending: bool)

  const Initial := Slot(false, 0, None, false, false)

  /** What a render reads for one reward. */
  datatype View = View(active: bool, blockStars: int, threshold: int)
  {
    predicate Complete() { active && blockStars >= threshold }
    function Target(): int { if active then Min(blockStars, threshold) else 0 }
  }

  /** The view of reward `idx` in a given progress state: enabled when it is not
      after the active block, counting the visible stars of missions 1..end only then. */
  ghost function ViewOf(acquired: map<int, int>, visible: set<int>, idx: int): View
  {
    var active := idx <= ActiveBlock(acquired);
    View(active, if active then VisibleStarsUpTo(visible, 10 * idx + 10) else 0, Threshold(idx))
  }

  /** The reward section of `render` for one reward. */
  function RenderReward(s: Slot, v: View): (r: Slot)
    ensures r.display <= v.Target()
    ensures s.display > v.Target() ==> r.display == v.Target()
    ensures s.tick.Some? ==> r.tick == s.tick && r.display == Min(s.display, v.Target())
    ensures s.tick.None? && v.Target() - Min(s.display, v.Target()) <= 1 ==>
              r.display == v.Target() && r.tick.None?
    ensures s.tick.None? && v.Target() - s.display > 1 ==>
              r.display == s.display && r.tick == Some(Tick(v.Target(), v.Complete()))
    ensures !v.Complete() ==> !r.revealDone && !r.revealPending
    ensures v.Complete() ==> r.revealDone == s.revealDone
    ensures r.revealPending ==> v.Complete() && r.display >= v.threshold
    ensures v.Complete() && r.display >= v.threshold && !s.revealDone ==> r.revealPending
    ensures r.unlockedPrev == (v.Complete() && s.revealDone)
  {
    var complete := v.Complete();
    var target := v.Target();
    var nowUnlocked := complete && s.revealDone;
    var display0 := if s.display > target then target else s.display;
    var diff := target - display0;
    var tick := if diff > 1 && s.tick.None? then Some(Tick(target, complete)) else s.tick;
    var display := if diff <= 1 && s.tick.None? then target else display0;
    var revealPending :=
      if complete then
        if display >= v.threshold then s.revealPending || !s.revealDone else false
      else false;
    var revealDone := if complete then s.revealDone else false;
    Slot(nowUnlocked, display, tick, revealDone, revealPending)
  }

  /** Arming the reveal timer after a tick: only when the tick had seen the block
      complete, the count is at the threshold, the reward is not yet revealed and
      no reveal timer is pending. */
  function ArmReveal(s: Slot, capturedComplete: bool, threshold: int): Slot
  {
    if capturedComplete && s.display >= threshold && !s.revealDone && !s.revealPending
    then s.(revealPending := true) else s
  }

  /** The counting tick fires: one step towards the target it captured; when it
      gets there the tick ends and, if it had seen the block complete and the
      count is at the threshold, the reveal timer is armed. */
  function FireTick(s: Slot, threshold: int): (r: Slot)
    requires s.tick.Some?
    ensures s.display < s.tick.value.target ==> r.display == s.display + 1
    ensures s.display + 1 < s.tick.value.target ==> r.tick == s.tick
    ensures s.display + 1 >= s.tick.value.target ==> r.tick.None?
    ensures s.display >= s.tick.value.target ==> r.display == s.display
    ensures r.revealDone == s.revealDone && r.unlockedPrev == s.unlockedPrev
    ensures r.tick.Some? ==> r.revealPending == s.revealPending
    ensures r.tick.None? ==>
              (r.revealPending <==>
                 (s.revealPending || (s.tick.value.blockComplete && r.display >= threshold && !s.revealDone)))
  {
    var t := s.tick.value;
    if s.display >= t.target then
      ArmReveal(s.(tick := None), t.blockComplete, threshold)
    else
      var s1 := s.(display := s.display + 1);
      if s1.display < t.target then s1
      else ArmReveal(s1.(tick := None), t.blockComplete, threshold)
  }

  /** The reveal timer fires: the reward is revealed if the count is at the
      threshold (the captured completeness is always true); the caller then
      re-renders and frees the slot. */
  function RevealFired(s: Slot, threshold: int): (r: Slot)
    ensures r.revealDone <==> s.revealDone || s.display >= threshold
    ensures r.display == s.display && r.tick == s.tick && r.revealPending == s.revealPending
  {
    if s.display >= threshold then s.(revealDone := true) else s
  }

  /** The invariant of one slot with threshold `thr`: the count stays in 0..thr;
      a counting tick is below its captured target, which is at most `thr`, and
      excludes a reveal; a pending or finished reveal means the count is at `thr`. */
  predicate SlotOk(s: Slot, thr: int)
  {
    0 <= s.display <= thr &&
    (s.tick.Some? ==> s.display < s.tick.value.target <= thr && !s.revealPending && !s.revealDone) &&
    (s.revealPending ==> s.display == thr && !s.revealDone) &&
    (s.revealDone ==> s.display == thr)
  }

  /** How a slot agrees with the view it was last rendered against: a revealed
      reward is complete, and the remembered unlock equals the reveal. */
  predicate SlotFits(s: Slot, v: View)
  {
    (s.revealDone ==> v.Complete()) && s.unlockedPrev == s.revealDone
  }

  predicate ViewOk(v: View)
  {
    v.blockStars >= 0 && v.threshold >= 1
  }

  lemma ViewOfOk(acquired: map<int, int>, visible: set<int>, idx: int)
    ensures ViewOk(ViewOf(acquired, visible, idx))
    ensures ViewOf(acquired, visible, idx).threshold == Threshold(idx)
  {
    VisibleStarsBound(visible, 10 * idx + 10);
  }

  /** The initial slot is sound for any threshold and fits any view. */
  lemma InitialOk(thr: int, v: View)
    requires thr >= 1
    ensures SlotOk(Initial, thr) && SlotFits(Initial, v)
  {
  }

  /** Every reward starts sound and agrees with any progress state. */
  lemma InitialOkEverywhere(acquired: map<int, int>, visible: set<int>)
    ensures forall i :: 0 <= i < Blocks ==>
      SlotOk(Initial, Threshold(i)) && SlotFits(Initial, ViewOf(acquired, visible, i))
  {
    forall i | 0 <= i < Blocks
      ensures SlotOk(Initial, Threshold(i)) && SlotFits(Initial, ViewOf(acquired, visible, i))
    {
      InitialOk(Threshold(i), ViewOf(acquired, visible, i));
    }
  }

  /** A render keeps the slot invariant, whatever the view, and leaves the slot
      agreeing with that view. */
  lemma RenderKeepsSlotOk(s: Slot, v: View)
    requires ViewOk(v) && SlotOk(s, v.threshold)
    ensures SlotOk(RenderReward(s, v), v.threshold)
    ensures SlotFits(RenderReward(s, v), v)
  {
  }

  /** A tick keeps the slot invariant; it may arm the reveal but never sets it. */
  lemma TickKeepsSlotOk(s: Slot, thr: int)
    requires s.tick.Some? && SlotOk(s, thr)
    ensures SlotOk(FireTick(s, thr), thr)
  {
  }

  /** The reveal fire, its render and the freeing of the timer keep the slot
      invariant and leave it agreeing with the view. */
  lemma RevealKeepsSlotOk(s: Slot, v: View)
    requires ViewOk(v) && SlotOk(s, v.threshold) && s.revealPending
    ensures var r := RenderReward(RevealFired(s, v.threshold), v).(revealPending := false);
      SlotOk(r, v.threshold) && SlotFits(r, v) && (r.revealDone <==> v.Complete())
  {
  }

  /** One `render()`: every reward slot rendered against its own view. */
  ghost function RenderAll(slots: seq<Slot>, acquired: map<int, int>, visible: set<int>): (r: seq<Slot>)
    requires |slots| == Blocks
    ensures |r| == Blocks
    ensures forall i :: 0 <= i < Blocks ==> r[i] == RenderReward(slots[i], ViewOf(acquired, visible, i))
  {
    seq(Blocks, i requires 0 <= i < Blocks => RenderReward(slots[i], ViewOf(acquired, visible, i)))
  }

  /** After a render every slot that was sound is sound and agrees with the
      current progress state. */
  lemma RenderAllKeepsOk(slots: seq<Slot>, acquired: map<int, int>, visible: set<int>, i: int)
    requires |slots| == Blocks && 0 <= i < Blocks
    requires SlotOk(slots[i], Threshold(i))
    ensures SlotOk(RenderAll(slots, acquired, visible)[i], Threshold(i))
    ensures SlotFits(RenderAll(slots, acquired, visible)[i], ViewOf(acquired, visible, i))
  {
    ViewOfOk(acquired, visible, i);
    RenderKeepsSlotOk(slots[i], ViewOf(acquired, visible, i));
  }

  /** The reveal timer of reward `idx` fires: the reward is revealed when its
      count is at the threshold and then every reward is rendered; finally the
      timer slot is freed. */
  ghost function RevealAll(slots: seq<Slot>, acquired: map<int, int>, visible: set<int>, idx: int): (r: seq<Slot>)
    requires |slots| == Blocks && 0 <= idx < Blocks
    ensures |r| == Blocks && !r[idx].revealPending
  {
    var fired := slots[idx := RevealFired(slots[idx], Threshold(idx))];
    Freed(if slots[idx].display >= Threshold(idx) then RenderAll(fired, acquired, visible) else fired, idx)
  }

  /** Two slot sequences that differ only at `idx`. */
  lemma UpdatedAt(a: seq<Slot>, b: seq<Slot>, idx: int, x: Slot)
    requires |a| == |b| && 0 <= idx < |a| && b[idx] == x
    requires forall j :: 0 <= j < |a| && j != idx ==> b[j] == a[j]
    ensures b == a[idx := x]
  {
  }

  /** The reveal timer slot of reward `idx` is freed. */
  function Freed(slots: seq<Slot>, idx: int): (r: seq<Slot>)
    requires 0 <= idx < |slots|
    ensures |r| == |slots| && !r[idx].revealPending
    ensures forall i :: 0 <= i < |slots| && i != idx ==> r[i] == slots[i]
  {
    slots[idx := slots[idx].(revealPending := false)]
  }

  /** A reveal fire on sound slots leaves every slot sound and agreeing with the
      progress state, and the reward is revealed exactly when it is complete. */
  lemma RevealAllOk(slots: seq<Slot>, acquired: map<int, int>, visible: set<int>, idx: int)
    requires |slots| == Blocks && 0 <= idx < Blocks && slots[idx].revealPending
    requires forall i :: 0 <= i < Blocks ==> SlotOk(slots[i], Threshold(i))
    ensures var r := RevealAll(slots, acquired, visible, idx);
      (forall i :: 0 <= i < Blocks ==>
         SlotOk(r[i], Threshold(i)) && SlotFits(r[i], ViewOf(acquired, visible, i))) &&
      (r[idx].revealDone <==> ViewOf(acquired, visible, idx).Complete())
  {
    var fired := slots[idx := RevealFired(slots[idx], Threshold(idx))];
    var r := RevealAll(slots, acquired, visible, idx);
    assert r == Freed(RenderAll(fired, acquired, visible), idx);
    forall i | 0 <= i < Blocks
      ensures SlotOk(r[i], Threshold(i)) && SlotFits(r[i], ViewOf(acquired, visible, i))
    {
      if i == idx {
        ViewOfOk(acquired, visible, idx);
        RevealKeepsSlotOk(slots[idx], ViewOf(acquired, visible, idx));
      } else {
        RenderAllKeepsOk(fired, acquired, visible, i);
      }
    }
    ViewOfOk(acquired, visible, idx);
    RevealKeepsSlotOk(slots[idx], ViewOf(acquired, visible, idx));
  }

  /** `k` tick fires with no render in between. */
  function Ticks(s: Slot, thr: int, k: nat): Slot
    decreases k
  {
    if k == 0 || s.tick.None? then s else Ticks(FireTick(s, thr), thr, k - 1)
  }

  /** Left alone, a counting tick reaches the target it captured after exactly
      `target - display` fires, one star per fire, and then stops. */
  lemma {:induction false} TicksReachTarget(s: Slot, thr: int)
    requires SlotOk(s, thr) && s.tick.Some?
    ensures var r := Ticks(s, thr, s.tick.value.target - s.display);
      r.display == s.tick.value.target && r.tick.None? && SlotOk(r, thr)
    decreases s.tick.value.target - s.display
  {
    var s1 := FireTick(s, thr);
    TickKeepsSlotOk(s, thr);
    if s1.tick.Some? {
      TicksReachTarget(s1, thr);
      assert s.tick.value.target - s.display == (s1.tick.value.target - s1.display) + 1;
    } else {
      assert s.tick.value.target - s.display == 1;
      assert Ticks(s1, thr, 0) == s1;
    }
  }

  /** The frozen target: a render that lowers the target leaves a running tick
      alone, so the tick counts past the new target (20 after the target fell to
      12) until the next render snaps the count back down. */
  lemma StaleTickOvershoots()
    ensures var v1 := View(true, 20, 20);
      var v2 := View(true, 12, 20);
      var s1 := RenderReward(Initial, v1);
      var s2 := RenderReward(s1, v2);
      var s3 := Ticks(s2, 20, 20);
      s1.tick == Some(Tick(20, true)) && s2.tick == s1.tick &&
      s3.display == 20 > v2.Target() && RenderReward(s3, v2).display == 12
  {
    var v1 := View(true, 20, 20);
    var v2 := View(true, 12, 20);
    var s1 := RenderReward(Initial, v1);
    var s2 := RenderReward(s1, v2);
    TicksReachTarget(s2, 20);
  }

  /** A reward is complete exactly when its block is enabled and every mission
      from 1 to the end of its block is visible. */
  lemma RewardCompleteIff(acquired: map<int, int>, visible: set<int>, idx: int)
    requires 0 <= idx < Blocks
    ensures ViewOf(acquired, visible, idx).Complete() <==>
              idx <= ActiveBlock(acquired) && forall n :: 1 <= n <= 10 * idx + 10 ==> n in visible
  {
    VisibleStarsBound(visible, 10 * idx + 10);
    ThresholdIsBlockStars(idx);
  }

  /** The target of a reward lies in 0..threshold, and it is 0 for a reward after
      the active block. */
  lemma TargetBounds(acquired: map<int, int>, visible: set<int>, idx: int)
    ensures var v := ViewOf(acquired, visible, idx);
      0 <= v.Target() <= Threshold(idx) && (idx > ActiveBlock(acquired) ==> v.Target() == 0)
  {
    VisibleStarsBound(visible, 10 * idx + 10);
  }
}
