/** The child-facing display: its progress state, its mission catalogue, its
    carousel cursor and the five reward arrays, updated in place by clicks,
    timer fires, the initial load and realtime pushes. */
module Display {
  import opened Js
  import opened Scoring
  import opened Unlock
  import opened Totals
  import opened Rows
  import opened Lists
  import Catalog
  import Progress
  import Rewards
  import Columns

  /** The steps of the `missions` handler on the catalogue: splice out the entry
      of a DELETE, retitle a known entry, or push a new one and re-sort. */
  method CatalogAfterPush(missions: seq<Catalog.CatalogEntry>, p: Payload<MissionRow>)
      returns (ms: seq<Catalog.CatalogEntry>)
    requires PayloadRow(p).Some?
    ensures ms == Catalog.PushedCatalog(missions, p)
  {
    var row := PayloadRow(p).value;
    var num := RowNumber(row);
    var title := RowTitle(row);
    ms := missions;
    var i := Catalog.FindEntry(ms, num);
    if p.eventType == Delete {
      if i >= 0 {
        ms := RemoveAt(ms, i);
      }
    } else if i >= 0 {
      if title != Undefined {
        ms := ms[i := ms[i].(titulo := title)];
      }
    } else if num.Val? {
      ms := SortBy(ms + [Catalog.NewEntry(num.v, title)], Catalog.Numero);
    }
  }

  class Display {
    var acquired: map<int, int>
    var visibleCompleted: set<int>
    var completionTimers: set<int>
    var selectedMission: Option<int>
    var missions: seq<Catalog.CatalogEntry>
    var colIndex: int
    var dbAlumno: Js<string>
    const rewardUnlockedPrev: array<bool>
    const rewardDisplay: array<int>
    const rewardTimers: array<Option<Rewards.Tick>>
    const rewardRevealDone: array<bool>
    const rewardRevealTimers: array<bool>

    function Arrays(): set<object>
    {
      {rewardUnlockedPrev as object, rewardDisplay as object, rewardTimers as object,
       rewardRevealDone as object, rewardRevealTimers as object}
    }

    /** Five entries per reward array, and the three boolean arrays are distinct. */
    predicate Shape()
    {
      rewardUnlockedPrev.Length == Blocks && rewardDisplay.Length == Blocks &&
      rewardTimers.Length == Blocks && rewardRevealDone.Length == Blocks &&
      rewardRevealTimers.Length == Blocks &&
      rewardUnlockedPrev != rewardRevealDone && rewardUnlockedPrev != rewardRevealTimers &&
      rewardRevealDone != rewardRevealTimers
    }

    /** Reward `i` as one slot of the counter state machine. */
    function Slot(i: int): Rewards.Slot
      reads Arrays()
      requires Shape() && 0 <= i < Blocks
    {
      Rewards.Slot(rewardUnlockedPrev[i], rewardDisplay[i], rewardTimers[i],
                   rewardRevealDone[i], rewardRevealTimers[i])
    }

    function Slots(): (r: seq<Rewards.Slot>)
      reads Arrays()
      requires Shape()
      ensures |r| == Blocks && forall i :: 0 <= i < Blocks ==> r[i] == Slot(i)
    {
      [Slot(0), Slot(1), Slot(2), Slot(3), Slot(4)]
    }

    function Store(): Progress.Store
      reads this
    {
      Progress.Store(acquired, visibleCompleted, completionTimers, selectedMission)
    }

    /** Every reward slot is sound and agrees with the given progress state. */
    ghost predicate SlotsFit(acquired: map<int, int>, visible: set<int>)
      reads Arrays()
      requires Shape()
    {
      forall i :: 0 <= i < Blocks ==>
        Rewards.SlotOk(Slot(i), Threshold(i)) &&
        Rewards.SlotFits(Slot(i), Rewards.ViewOf(acquired, visible, i))
    }

    ghost predicate Valid()
      reads this, Arrays()
    {
      Shape() &&
      0 <= colIndex < Columns.ColumnCount &&
      Sorted(missions, Catalog.Numero) &&
      SlotsFit(acquired, visibleCompleted)
    }

    /** The state `init` builds before the progress load: the catalogue from the
        query, the student name, and everything else empty. */
    constructor (fetched: Option<seq<MissionRow>>, nombre: Js<string>, id: Js<string>)
      ensures Valid()
      ensures missions == Catalog.InitialCatalog(fetched)
      ensures dbAlumno == Val(UserName(nombre, id, "Mateo"))
      ensures acquired == map[] && visibleCompleted == {} && completionTimers == {}
      ensures selectedMission == None && colIndex == 0
      ensures forall i :: 0 <= i < Blocks ==> Slot(i) == Rewards.Initial
    {
      acquired := map[];
      visibleCompleted := {};
      completionTimers := {};
      selectedMission := None;
      missions := Catalog.InitialCatalog(fetched);
      colIndex := 0;
      dbAlumno := Val(UserName(nombre, id, "Mateo"));
      rewardUnlockedPrev := new bool[] [false, false, false, false, false];
      rewardDisplay := new int[] [0, 0, 0, 0, 0];
      rewardTimers := new Option<Rewards.Tick>[] [None, None, None, None, None];
      rewardRevealDone := new bool[] [false, false, false, false, false];
      rewardRevealTimers := new bool[] [false, false, false, false, false];
      new;
      assert forall i :: 0 <= i < Blocks ==> !rewardUnlockedPrev[i] && rewardDisplay[i] == 0;
      assert forall i :: 0 <= i < Blocks ==> rewardTimers[i].None?;
      assert forall i :: 0 <= i < Blocks ==> !rewardRevealDone[i] && !rewardRevealTimers[i];
      assert forall i :: 0 <= i < Blocks ==> Slot(i) == Rewards.Initial;
      Rewards.InitialOkEverywhere(acquired, visibleCompleted);
    }

    /** The reward section of `render` for reward `idx`, in place. */
    method RenderReward(idx: int)
      requires Shape() && 0 <= idx < Blocks
      modifies Arrays()
      ensures Slot(idx) == Rewards.RenderReward(old(Slot(idx)), Rewards.ViewOf(acquired, visibleCompleted, idx))
      ensures forall j :: 0 <= j < Blocks && j != idx ==> Slot(j) == old(Slot(j))
    {
      var end := idx * 10 + 10;
      var highest := HighestCompletedBlock(acquired);
      var activeIdx := Min(highest + 1, Blocks - 1);
      var blockActive := idx <= activeIdx;
      var blockStars := 0;
      if blockActive {
        blockStars := BlockStars(visibleCompleted, end);
      }
      var threshold := Threshold(idx);
      var blockComplete := blockActive && blockStars >= threshold;
      ghost var v := Rewards.View(blockActive, blockStars, threshold);
      assert v == Rewards.ViewOf(acquired, visibleCompleted, idx);
      ghost var s := Slot(idx);
      var display, tick := rewardDisplay[idx], rewardTimers[idx];
      var revealDone, revealPending := rewardRevealDone[idx], rewardRevealTimers[idx];
      var nowUnlocked := blockComplete && revealDone;
      var target := if blockActive then Min(blockStars, threshold) else 0;
      if display > target {
        display := target;
      }
      var diff := target - display;
      if diff > 1 && tick.None? {
        tick := Some(Rewards.Tick(target, blockComplete));
      } else if diff == 1 && tick.None? {
        display := target;
      } else if diff <= 0 && tick.None? {
        display := target;
      }
      if blockComplete {
        if display >= threshold {
          if !revealDone && !revealPending {
            revealPending := true;
          }
        } else {
          revealPending := false;
        }
      } else {
        revealPending := false;
        revealDone := false;
      }
      assert Rewards.Slot(nowUnlocked, display, tick, revealDone, revealPending) == Rewards.RenderReward(s, v);
      WriteSlot(idx, Rewards.Slot(nowUnlocked, display, tick, revealDone, revealPending));
    }

    /** Stores slot `s` as the entries `idx` of the reward arrays. */
    method WriteSlot(idx: int, s: Rewards.Slot)
      requires Shape() && 0 <= idx < Blocks
      modifies Arrays()
      ensures Slot(idx) == s
      ensures forall j :: 0 <= j < Blocks && j != idx ==> Slot(j) == old(Slot(j))
    {
      rewardUnlockedPrev[idx] := s.unlockedPrev;
      rewardDisplay[idx] := s.display;
      rewardTimers[idx] := s.tick;
      rewardRevealDone[idx] := s.revealDone;
      rewardRevealTimers[idx] := s.revealPending;
    }

    /** `render()`: walk the column order and render every reward column (mission
        columns change no state). */
    method Render()
      requires Shape()
      modifies Arrays()
      ensures unchanged(this)
      ensures Slots() == Rewards.RenderAll(old(Slots()), acquired, visibleCompleted)
    {
      var order := Columns.MakeColumnsOrder();
      ghost var target := Rewards.RenderAll(Slots(), acquired, visibleCompleted);
      var i := 0;
      while i < |order|
        invariant 0 <= i <= |order| == Columns.ColumnCount
        invariant forall j :: 0 <= j < Blocks && j < i / 3 ==> Slot(j) == target[j]
        invariant forall j :: 0 <= j < Blocks && i / 3 <= j ==> Slot(j) == old(Slot(j))
      {
        match order[i] {
          case Reward(idx) =>
            assert idx == i / 3 && (i + 1) / 3 == idx + 1;
            RenderReward(idx);
          case Missions(_, _) =>
            assert (i + 1) / 3 == i / 3;
        }
        i := i + 1;
      }
    }

    /** The click handler of mission card `n`. */
    method Click(n: int)
      requires Valid()
      modifies this, Arrays()
      ensures Valid()
      ensures Store() == Progress.Click(old(Store()), n)
      ensures missions == old(missions) && colIndex == old(colIndex) && dbAlumno == old(dbAlumno)
      ensures Locked(old(acquired), n) ==> Slots() == old(Slots())
      ensures !Locked(old(acquired), n) && old(selectedMission) != Some(n) ==>
                Slots() == Rewards.RenderAll(old(Slots()), acquired, visibleCompleted)
      ensures !Locked(old(acquired), n) && old(selectedMission) == Some(n) ==>
                if Got(old(acquired), n) >= CalcStars(n)
                then Slots() == Rewards.RenderAll(Rewards.RenderAll(old(Slots()), acquired, old(visibleCompleted)),
                                                  acquired, visibleCompleted)
                else Slots() == Rewards.RenderAll(old(Slots()), acquired, visibleCompleted)
    {
      ghost var s0 := Store();
      var locked := IsLocked(acquired, n);
      if locked {
        return;
      }
      if selectedMission != Some(n) {
        selectedMission := Some(n);
        assert Store() == Progress.Click(s0, n);
        RenderValid();
        return;
      }
      Advance(n);
    }

    /** The second click on the selected, unlocked card `n`: one more star,
        `render()`, then the completion timer is armed, or cancelled with the
        mission hidden and a second `render()`. */
    method Advance(n: int)
      requires Valid() && !Locked(acquired, n) && selectedMission == Some(n)
      modifies this, Arrays()
      ensures Valid()
      ensures selectedMission == old(selectedMission)
      ensures missions == old(missions) && colIndex == old(colIndex) && dbAlumno == old(dbAlumno)
      ensures Got(old(acquired), n) >= CalcStars(n) ==>
        Slots() == Rewards.RenderAll(Rewards.RenderAll(old(Slots()), acquired, old(visibleCompleted)),
                                     acquired, visibleCompleted)
      ensures Got(old(acquired), n) < CalcStars(n) ==>
        Slots() == Rewards.RenderAll(old(Slots()), acquired, visibleCompleted)
      ensures Store() == Progress.Click(old(Store()), n)
    {
      ghost var s0 := Store();
      var maxS := CalcStars(n);
      var prev := Got(acquired, n);
      if prev >= maxS {
        ResetStars(n);
      } else {
        AddStar(n, prev + 1);
      }
      Progress.ClickAdvances(s0, n, acquired, visibleCompleted, completionTimers);
    }

    /** The selected mission was complete: back to 0 stars, `render()`, then the
        mission is hidden. */
    method ResetStars(n: int)
      requires Valid()
      modifies this, Arrays()
      ensures Valid()
      ensures acquired == old(acquired)[n := 0] && selectedMission == old(selectedMission)
      ensures completionTimers == old(completionTimers) - {n} && visibleCompleted == old(visibleCompleted) - {n}
      ensures missions == old(missions) && colIndex == old(colIndex) && dbAlumno == old(dbAlumno)
      ensures Slots() == Rewards.RenderAll(Rewards.RenderAll(old(Slots()), acquired, old(visibleCompleted)),
                                           acquired, visibleCompleted)
    {
      acquired := acquired[n := 0];
      RenderValid();
      HideMission(n);
    }

    /** The selected mission was not complete: it takes `next` stars, `render()`
        runs, and the completion timer is armed when `next` completes it. */
    method AddStar(n: int, next: int)
      requires Valid()
      modifies this, Arrays()
      ensures Valid()
      ensures acquired == old(acquired)[n := next] && selectedMission == old(selectedMission)
      ensures visibleCompleted == old(visibleCompleted)
      ensures completionTimers == if next >= CalcStars(n) then old(completionTimers) + {n} else old(completionTimers)
      ensures missions == old(missions) && colIndex == old(colIndex) && dbAlumno == old(dbAlumno)
      ensures Slots() == Rewards.RenderAll(old(Slots()), acquired, visibleCompleted)
    {
      acquired := acquired[n := next];
      RenderValid();
      if next >= CalcStars(n) {
        completionTimers := completionTimers + {n};
      }
    }

    /** A mission stops being complete: its completion timer is cancelled, it is
        hidden at once, and `render()` runs. */
    method HideMission(n: int)
      requires Valid()
      modifies this, Arrays()
      ensures Valid()
      ensures Store() == old(Store()).(timers := old(completionTimers) - {n}, visible := old(visibleCompleted) - {n})
      ensures missions == old(missions) && colIndex == old(colIndex) && dbAlumno == old(dbAlumno)
      ensures Slots() == Rewards.RenderAll(old(Slots()), acquired, visibleCompleted)
    {
      completionTimers := completionTimers - {n};
      visibleCompleted := visibleCompleted - {n};
      RenderValid();
    }

    /** `render()` on a state whose slots are sound: afterwards the state is valid. */
    method RenderValid()
      requires Shape() && 0 <= colIndex < Columns.ColumnCount && Sorted(missions, Catalog.Numero)
      requires forall i :: 0 <= i < Blocks ==> Rewards.SlotOk(Slot(i), Threshold(i))
      modifies Arrays()
      ensures unchanged(this)
      ensures Valid()
      ensures Slots() == Rewards.RenderAll(old(Slots()), acquired, visibleCompleted)
    {
      ghost var before := Slots();
      Render();
      forall i | 0 <= i < Blocks
        ensures Rewards.SlotOk(Slot(i), Threshold(i))
        ensures Rewards.SlotFits(Slot(i), Rewards.ViewOf(acquired, visibleCompleted, i))
      {
        Rewards.RenderAllKeepsOk(before, acquired, visibleCompleted, i);
      }
    }

    /** The completion timer of `n` fires. */
    method FireCompletion(n: int)
      requires Valid() && n in completionTimers
      modifies this, Arrays()
      ensures Valid()
      ensures Store() == Progress.FireCompletion(old(Store()), n)
      ensures missions == old(missions) && colIndex == old(colIndex) && dbAlumno == old(dbAlumno)
      ensures Got(old(acquired), n) >= CalcStars(n) ==>
                Slots() == Rewards.RenderAll(old(Slots()), acquired, visibleCompleted)
      ensures Got(old(acquired), n) < CalcStars(n) ==> Slots() == old(Slots())
    {
      var curr := Got(acquired, n);
      if curr >= CalcStars(n) {
        visibleCompleted := visibleCompleted + {n};
        RenderValid();
      }
      completionTimers := completionTimers - {n};
    }

    /** One step of the counting tick of reward `idx`, in place. */
    method StepRewardTick(idx: int)
      requires Shape() && 0 <= idx < Blocks && rewardTimers[idx].Some?
      modifies Arrays()
      ensures Slot(idx) == Rewards.FireTick(old(Slot(idx)), Threshold(idx))
      ensures forall j :: 0 <= j < Blocks && j != idx ==> Slot(j) == old(Slot(j))
    {
      var t := rewardTimers[idx].value;
      var threshold := Threshold(idx);
      if rewardDisplay[idx] >= t.target {
        rewardTimers[idx] := None;
        if t.blockComplete && rewardDisplay[idx] >= threshold && !rewardRevealDone[idx] && !rewardRevealTimers[idx] {
          rewardRevealTimers[idx] := true;
        }
        return;
      }
      rewardDisplay[idx] := rewardDisplay[idx] + 1;
      if rewardDisplay[idx] < t.target {
        rewardTimers[idx] := Some(t);
      } else {
        rewardTimers[idx] := None;
        if t.blockComplete && rewardDisplay[idx] >= threshold && !rewardRevealDone[idx] && !rewardRevealTimers[idx] {
          rewardRevealTimers[idx] := true;
        }
      }
    }

    /** The counting tick of reward `idx` fires; the display stays valid. */
    method FireRewardTick(idx: int)
      requires Valid() && 0 <= idx < Blocks && rewardTimers[idx].Some?
      modifies Arrays()
      ensures Valid()
      ensures Slot(idx) == Rewards.FireTick(old(Slot(idx)), Threshold(idx))
      ensures forall j :: 0 <= j < Blocks && j != idx ==> Slot(j) == old(Slot(j))
    {
      ghost var s := Slot(idx);
      StepRewardTick(idx);
      Rewards.TickKeepsSlotOk(s, Threshold(idx));
    }

    /** The reveal timer of reward `idx` fires: reveal and re-render when the count
        is at the threshold, then free the timer. */
    method FireRewardReveal(idx: int)
      requires Valid() && 0 <= idx < Blocks && rewardRevealTimers[idx]
      modifies Arrays()
      ensures Valid()
      ensures Slots() == Rewards.RevealAll(old(Slots()), acquired, visibleCompleted, idx)
      ensures rewardRevealDone[idx] <==> Rewards.ViewOf(acquired, visibleCompleted, idx).Complete()
    {
      ghost var before := Slots();
      RevealStep(idx);
      Rewards.RevealAllOk(before, acquired, visibleCompleted, idx);
    }

    /** The body of the reveal timer of reward `idx`, in place. */
    method RevealStep(idx: int)
      requires Shape() && 0 <= idx < Blocks
      modifies Arrays()
      ensures unchanged(this)
      ensures old(rewardDisplay[idx]) >= Threshold(idx) ==>
        Slots() == Rewards.Freed(Rewards.RenderAll(old(Slots())[idx := Rewards.RevealFired(old(Slot(idx)), Threshold(idx))],
                                                   acquired, visibleCompleted), idx)
      ensures old(rewardDisplay[idx]) < Threshold(idx) ==> Slots() == Rewards.Freed(old(Slots()), idx)
    {
      if rewardDisplay[idx] >= Threshold(idx) {
        RevealAndRender(idx);
        FreeReveal(idx);
      } else {
        FreeReveal(idx);
      }
    }

    /** `rewardRevealTimers[idx] = null`. */
    method FreeReveal(idx: int)
      requires Shape() && 0 <= idx < Blocks
      modifies rewardRevealTimers
      ensures Slots() == Rewards.Freed(old(Slots()), idx)
    {
      ghost var before := Slots();
      rewardRevealTimers[idx] := false;
      Rewards.UpdatedAt(before, Slots(), idx, before[idx].(revealPending := false));
    }

    /** `rewardRevealDone[idx] = true` once the count is at the threshold. */
    method MarkRevealed(idx: int)
      requires Shape() && 0 <= idx < Blocks && rewardDisplay[idx] >= Threshold(idx)
      modifies rewardRevealDone
      ensures Slots() == old(Slots())[idx := Rewards.RevealFired(old(Slot(idx)), Threshold(idx))]
    {
      ghost var before := Slots();
      assert Rewards.RevealFired(before[idx], Threshold(idx)) == before[idx].(revealDone := true);
      rewardRevealDone[idx] := true;
      Rewards.UpdatedAt(before, Slots(), idx, before[idx].(revealDone := true));
    }

    /** The reward `idx` is revealed and `render()` runs. */
    method RevealAndRender(idx: int)
      requires Shape() && 0 <= idx < Blocks && rewardDisplay[idx] >= Threshold(idx)
      modifies Arrays()
      ensures unchanged(this)
      ensures Slots() == Rewards.RenderAll(old(Slots())[idx := Rewards.RevealFired(old(Slot(idx)), Threshold(idx))],
                                           acquired, visibleCompleted)
    {
      MarkRevealed(idx);
      Render();
    }

    /** The rows of the initial progress query, then `render()`. */
    method LoadProgress(rows: seq<MissionRow>)
      requires Valid()
      modifies this, Arrays()
      ensures Valid()
      ensures Store() == Progress.LoadRows(old(Store()), rows)
      ensures missions == old(missions) && colIndex == old(colIndex) && dbAlumno == old(dbAlumno)
      ensures Slots() == Rewards.RenderAll(old(Slots()), acquired, visibleCompleted)
    {
      var i := 0;
      while i < |rows|
        invariant 0 <= i <= |rows|
        invariant Progress.LoadRows(Store(), rows[i..]) == Progress.LoadRows(old(Store()), rows)
        invariant missions == old(missions) && colIndex == old(colIndex) && dbAlumno == old(dbAlumno)
        invariant Slots() == old(Slots())
      {
        var row := rows[i];
        var n := RowNumber(row);
        var s := if row.estrellas.Val? then row.estrellas.v else 0;
        if n.Val? {
          acquired := acquired[n.v := s];
          var req := CalcStars(n.v);
          if s >= req {
            visibleCompleted := visibleCompleted + {n.v};
          }
        }
        assert rows[i..][1..] == rows[i + 1..];
        i := i + 1;
      }
      assert rows[|rows|..] == [];
      RenderValid();
    }

    /** The realtime handler of the `missions` table: the catalogue and the
        progress take the row, then `render()` runs. */
    method OnMissionsPush(p: Payload<MissionRow>)
      requires Valid()
      modifies this, Arrays()
      ensures Valid()
      ensures missions == Catalog.PushedCatalog(old(missions), p)
      ensures Store() == Progress.PushedProgress(old(Store()), p)
      ensures colIndex == old(colIndex) && dbAlumno == old(dbAlumno)
      ensures PayloadRow(p).None? ==> Slots() == old(Slots())
      ensures PayloadRow(p).Some? ==> Slots() == Rewards.RenderAll(old(Slots()), acquired, visibleCompleted)
    {
      if PayloadRow(p).None? {
        return;
      }
      Catalog.PushKeepsCatalogSorted(missions, p);
      PushCatalog(p);
      PushProgress(p);
      RenderValid();
    }

    /** The catalogue part of the `missions` handler, in place. */
    method PushCatalog(p: Payload<MissionRow>)
      requires PayloadRow(p).Some?
      modifies this
      ensures missions == Catalog.PushedCatalog(old(missions), p)
      ensures Store() == old(Store()) && colIndex == old(colIndex) && dbAlumno == old(dbAlumno)
    {
      var ms := CatalogAfterPush(missions, p);
      missions := ms;
    }

    /** The progress part of the `missions` handler, in place. */
    method PushProgress(p: Payload<MissionRow>)
      requires PayloadRow(p).Some?
      modifies this
      ensures Store() == Progress.PushedProgress(old(Store()), p)
      ensures missions == old(missions) && colIndex == old(colIndex) && dbAlumno == old(dbAlumno)
    {
      var row := PayloadRow(p).value;
      var num := RowNumber(row);
      if !num.Val? {
        return;
      }
      var n := num.v;
      var estrellas := RowStars(row);
      var estado := RowEstado(row);
      if p.eventType == Delete {
        acquired := acquired - {n};
        visibleCompleted := visibleCompleted - {n};
      } else if estrellas.Some? {
        acquired := acquired[n := estrellas.value];
        var req := CalcStars(n);
        if estrellas.value >= req {
          visibleCompleted := visibleCompleted + {n};
        } else {
          visibleCompleted := visibleCompleted - {n};
        }
      } else if estado.Some? {
        if estado.value {
          visibleCompleted := visibleCompleted + {n};
        } else {
          visibleCompleted := visibleCompleted - {n};
        }
      }
    }

    /** The realtime handler of the `user_meta` table. */
    method OnUserMetaPush(p: Payload<MetaRow>)
      requires Valid()
      modifies this, Arrays()
      ensures Valid()
      ensures Store() == Progress.MetaPushed(old(Store()), dbAlumno, p)
      ensures missions == old(missions) && colIndex == old(colIndex) && dbAlumno == old(dbAlumno)
      ensures PayloadRow(p).None? || (TruthyText(dbAlumno) && PayloadRow(p).value.alumno != dbAlumno) ==>
                Slots() == old(Slots())
      ensures PayloadRow(p).Some? && (!TruthyText(dbAlumno) || PayloadRow(p).value.alumno == dbAlumno) ==>
                Slots() == Rewards.RenderAll(old(Slots()), acquired, visibleCompleted)
    {
      var rowOpt := PayloadRow(p);
      if rowOpt.None? {
        return;
      }
      var row := rowOpt.value;
      var alumnoRow := row.alumno;
      if TruthyText(dbAlumno) && alumnoRow != dbAlumno {
        return;
      }
      var sel := row.selected_mission;
      if sel.Val? {
        selectedMission := Some(sel.v);
      } else {
        selectedMission := None;
      }
      RenderValid();
    }

    /** The previous-column button. */
    method Prev()
      requires Valid()
      modifies this
      ensures Valid()
      ensures colIndex == Columns.Step(old(colIndex), -1)
      ensures colIndex == if old(colIndex) > 0 then old(colIndex) - 1 else 0
      ensures Store() == old(Store()) && missions == old(missions) && dbAlumno == old(dbAlumno)
    {
      colIndex := Clamp(colIndex - 1, 0, Columns.ColumnCount - 1);
    }

    /** The next-column button. */
    method Next()
      requires Valid()
      modifies this
      ensures Valid()
      ensures colIndex == Columns.Step(old(colIndex), 1)
      ensures colIndex == if old(colIndex) < Columns.ColumnCount - 1 then old(colIndex) + 1 else old(colIndex)
      ensures Store() == old(Store()) && missions == old(missions) && dbAlumno == old(dbAlumno)
    {
      colIndex := Clamp(colIndex + 1, 0, Columns.ColumnCount - 1);
    }
  }
}
