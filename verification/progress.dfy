/** The display's progress store: the stars acquired per mission, the missions
    whose completion is already visible, the pending completion timers (one slot
    per mission) and the selected mission. This module gives each event its
    effect on the store; the `Display` class performs them in place. */
module Progress {
  import opened Js
  import opened Scoring
  import opened Unlock
  import opened Rows
  import Totals

  datatype Store = Store(
    acquired: map<int, int>,
    visible: set<int>,
    timers: set<int>,
    selected: Option<int>)

  /** The second click on a mission: one more star, back to 0 from the maximum. */
  function NextStars(prev: int, maxS: int): (next: int)
    requires maxS >= 1
    ensures prev >= -1 ==> 0 <= next <= maxS
    ensures prev >= maxS ==> next == 0
    ensures prev < maxS ==> next == prev + 1
    ensures next >= maxS <==> prev == maxS - 1
  {
    if prev >= maxS then 0 else Min(maxS, prev + 1)
  }

  /** `k` second clicks starting from 0 stars. */
  function Clicks(k: nat, maxS: int): int
    requires maxS >= 1
  {
    if k == 0 then 0 else NextStars(Clicks(k - 1, maxS), maxS)
  }

  /** Repeated clicks cycle through 0, 1, ..., max and back to 0: after `j` full
      rounds of `max + 1` clicks and `r` more, the mission holds `r` stars. */
  lemma {:induction false} ClicksCycle(j: nat, r: nat, maxS: int)
    requires maxS >= 1 && r <= maxS
    ensures Clicks(j * (maxS + 1) + r, maxS) == r
    decreases j, r
  {
    if r > 0 {
      ClicksCycle(j, r - 1, maxS);
    } else if j > 0 {
      ClicksCycle(j - 1, maxS, maxS);
      assert j * (maxS + 1) - 1 == (j - 1) * (maxS + 1) + maxS;
    }
  }

  /** A click on card `n` (a card exists for missions 1..50 only). A locked card
      ignores it; the first click selects; a click on the selected card moves its
      stars on, arms the completion timer when the mission becomes complete (a
      pending one is replaced, so the slot stays pending), and cancels the timer
      and hides the mission at once when it stops being complete. */
  ghost function Click(s: Store, n: int): (r: Store)
    ensures Locked(s.acquired, n) ==> r == s
    ensures !Locked(s.acquired, n) && s.selected != Some(n) ==> r == s.(selected := Some(n))
    ensures r.selected == (if Locked(s.acquired, n) then s.selected else Some(n))
    ensures forall m :: m != n ==> Got(r.acquired, m) == Got(s.acquired, m)
    ensures forall m :: m != n ==> (m in r.visible <==> m in s.visible) && (m in r.timers <==> m in s.timers)
    ensures r.visible <= s.visible
    ensures !Locked(s.acquired, n) && s.selected == Some(n) ==>
              Got(r.acquired, n) == NextStars(Got(s.acquired, n), CalcStars(n))
    ensures Got(s.acquired, n) < CalcStars(n) <= Got(r.acquired, n) ==> n in r.timers
    ensures Got(r.acquired, n) < CalcStars(n) <= Got(s.acquired, n) ==> n !in r.timers && n !in r.visible
    ensures (Got(s.acquired, n) >= CalcStars(n)) == (Got(r.acquired, n) >= CalcStars(n)) ==>
              (n in r.timers <==> n in s.timers) && (n in r.visible <==> n in s.visible)
  {
    if Locked(s.acquired, n) then s
    else if s.selected != Some(n) then s.(selected := Some(n))
    else
      var maxS := CalcStars(n);
      var prev := Got(s.acquired, n);
      var next := NextStars(prev, maxS);
      var acquired := s.acquired[n := next];
      if prev < maxS && next >= maxS then
        s.(acquired := acquired, timers := s.timers + {n})
      else if prev >= maxS && next < maxS then
        s.(acquired := acquired, timers := s.timers - {n}, visible := s.visible - {n})
      else
        s.(acquired := acquired)
  }

  /** The second click on the selected, unlocked card, as one store update. */
  lemma ClickAdvances(s: Store, n: int, acquired: map<int, int>, visible: set<int>, timers: set<int>)
    requires !Locked(s.acquired, n) && s.selected == Some(n)
    requires Got(s.acquired, n) >= CalcStars(n) ==>
               acquired == s.acquired[n := 0] && timers == s.timers - {n} && visible == s.visible - {n}
    requires Got(s.acquired, n) < CalcStars(n) ==>
               acquired == s.acquired[n := Got(s.acquired, n) + 1] && visible == s.visible &&
               timers == (if Got(s.acquired, n) + 1 >= CalcStars(n) then s.timers + {n} else s.timers)
    ensures Click(s, n) == Store(acquired, visible, timers, s.selected)
  {
  }

  /** The completion timer of `n` fires: the mission becomes visible only if it is
      still complete now, and the slot is freed either way. */
  function FireCompletion(s: Store, n: int): (r: Store)
    requires n in s.timers
    ensures n in r.visible <==> n in s.visible || Got(s.acquired, n) >= CalcStars(n)
    ensures forall m :: m != n ==> (m in r.visible <==> m in s.visible)
    ensures r.timers == s.timers - {n}
    ensures r.acquired == s.acquired && r.selected == s.selected
  {
    var r := s.(timers := s.timers - {n});
    if Got(s.acquired, n) >= CalcStars(n) then r.(visible := s.visible + {n}) else r
  }

  /** Every visible mission has all its stars. */
  ghost predicate VisibleAreComplete(s: Store)
  {
    forall m :: m in s.visible ==> Got(s.acquired, m) >= CalcStars(m)
  }

  /** Clicks keep every visible mission complete. */
  lemma ClickKeepsVisibleComplete(s: Store, n: int)
    requires VisibleAreComplete(s)
    ensures VisibleAreComplete(Click(s, n))
  {
    var r := Click(s, n);
    forall m | m in r.visible
      ensures Got(r.acquired, m) >= CalcStars(m)
    {
      assert m in s.visible;
    }
  }

  /** Timer fires keep every visible mission complete. */
  lemma FireKeepsVisibleComplete(s: Store, n: int)
    requires n in s.timers && VisibleAreComplete(s)
    ensures VisibleAreComplete(FireCompletion(s, n))
  {
  }

  /** Completing the selected mission shows nothing at once; the timer fire that
      follows makes it visible and adds exactly its stars to the progress total. */
  lemma CompletionShowsAfterFire(s: Store, n: int)
    requires s.selected == Some(n) && !Locked(s.acquired, n)
    requires Got(s.acquired, n) == CalcStars(n) - 1
    requires n !in s.visible
    ensures var s1 := Click(s, n);
      Got(s1.acquired, n) == CalcStars(n) && n in s1.timers && s1.visible == s.visible &&
      FireCompletion(s1, n).visible == s.visible + {n} &&
      Totals.SetStars(FireCompletion(s1, n).visible) == Totals.SetStars(s.visible) + CalcStars(n)
  {
    var s1 := Click(s, n);
    var v := FireCompletion(s1, n).visible;
    assert v == s.visible + {n};
    Totals.SetStarsRemove(v, n);
    assert v - {n} == s.visible;
  }

  /** Completing the selected mission and clicking it again before the timer fires
      leaves no timer, nothing visible and zero stars: the reveal never happens. */
  lemma RegressionBeforeFire(s: Store, n: int)
    requires s.selected == Some(n) && !Locked(s.acquired, n)
    requires Got(s.acquired, n) == CalcStars(n) - 1
    ensures var s2 := Click(Click(s, n), n);
      Got(s2.acquired, n) == 0 && n !in s2.timers && n !in s2.visible
  {
    var s1 := Click(s, n);
    UnlockedStaysUnlocked(s.acquired, s1.acquired, n);
  }

  /** The stars the loader reads from a row: its `estrellas` when numeric, else 0. */
  function LoadedStars(row: MissionRow): int
  {
    if row.estrellas.Val? then row.estrellas.v else 0
  }

  /** One row of the initial progress load: a row with a numeric number sets its
      stars and, when they reach the requirement, makes it visible; it never hides
      anything. */
  function LoadRow(s: Store, row: MissionRow): Store
  {
    var n := RowNumber(row);
    if n.Val? then
      var k := LoadedStars(row);
      var acquired := s.acquired[n.v := k];
      if k >= CalcStars(n.v) then s.(acquired := acquired, visible := s.visible + {n.v})
      else s.(acquired := acquired)
    else s
  }

  /** The loader's pass over the fetched rows, in order. */
  function LoadRows(s: Store, rows: seq<MissionRow>): Store
    decreases |rows|
  {
    if rows == [] then s else LoadRows(LoadRow(s, rows[0]), rows[1..])
  }

  /** Numbers of the rows whose stars reach the requirement. */
  ghost function ReachedNumbers(rows: seq<MissionRow>): set<int>
  {
    set row | row in rows && RowNumber(row).Val? && LoadedStars(row) >= CalcStars(RowNumber(row).v)
      :: RowNumber(row).v
  }

  /** Loading adds to the visible set exactly the numbers of the rows that reach
      their requirement and removes nothing (even when a later row for the same
      number has fewer stars); the timers and the selection are untouched. */
  lemma {:induction false} LoadRowsVisible(s: Store, rows: seq<MissionRow>)
    ensures LoadRows(s, rows).visible == s.visible + ReachedNumbers(rows)
    ensures LoadRows(s, rows).timers == s.timers && LoadRows(s, rows).selected == s.selected
    decreases |rows|
  {
    if rows != [] {
      LoadRowsVisible(LoadRow(s, rows[0]), rows[1..]);
      assert forall row :: row in rows <==> row == rows[0] || row in rows[1..];
      var r0 := rows[0];
      if RowNumber(r0).Val? && LoadedStars(r0) >= CalcStars(RowNumber(r0).v) {
        assert ReachedNumbers(rows) == {RowNumber(r0).v} + ReachedNumbers(rows[1..]);
      } else {
        assert ReachedNumbers(rows) == ReachedNumbers(rows[1..]);
      }
    }
  }

  /** Loading leaves numbers without a row alone, and the final row of the
      list, when it names `m`, decides the stars of `m`. */
  lemma {:induction false} LoadRowsStars(s: Store, rows: seq<MissionRow>, m: int)
    ensures (forall row :: row in rows ==> RowNumber(row) != Val(m)) ==>
              Got(LoadRows(s, rows).acquired, m) == Got(s.acquired, m)
    ensures |rows| > 0 && RowNumber(rows[|rows| - 1]) == Val(m) ==>
              Got(LoadRows(s, rows).acquired, m) == LoadedStars(rows[|rows| - 1])
    decreases |rows|
  {
    if rows != [] {
      LoadRowsStars(LoadRow(s, rows[0]), rows[1..], m);
      assert forall row :: row in rows[1..] ==> row in rows;
      if |rows| == 1 {
        assert rows[1..] == [];
      } else {
        assert rows[|rows| - 1] == rows[1..][|rows[1..]| - 1];
      }
    }
  }

  /** Loading gives every number the stars of its last row: row `j` decides `m`
      when it names `m` and no later row does. */
  lemma {:induction false} LoadRowsLastRowDecides(s: Store, rows: seq<MissionRow>, m: int, j: int)
    requires 0 <= j < |rows| && RowNumber(rows[j]) == Val(m)
    requires forall k :: j < k < |rows| ==> RowNumber(rows[k]) != Val(m)
    ensures Got(LoadRows(s, rows).acquired, m) == LoadedStars(rows[j])
    decreases j
  {
    var s1 := LoadRow(s, rows[0]);
    assert LoadRows(s, rows) == LoadRows(s1, rows[1..]);
    if j == 0 {
      forall row | row in rows[1..]
        ensures RowNumber(row) != Val(m)
      {
        var k :| 0 <= k < |rows[1..]| && rows[1..][k] == row;
        assert rows[k + 1] == row;
      }
      LoadRowsStars(s1, rows[1..], m);
    } else {
      LoadRowsLastRowDecides(s1, rows[1..], m, j - 1);
    }
  }

  /** The progress part of the realtime `missions` handler, for a payload whose
      number is numeric (see `Findings` for the other case): a DELETE forgets the
      mission; numeric `estrellas` are stored as they come and decide visibility
      at once; otherwise a boolean `estado` alone decides visibility. Timers and
      the selection are never touched. */
  function PushedProgress(s: Store, p: Payload<MissionRow>): (r: Store)
    ensures r.timers == s.timers && r.selected == s.selected
  {
    match PayloadRow(p)
    case None => s
    case Some(row) =>
      var num := RowNumber(row);
      if !num.Val? then s
      else
        var n := num.v;
        if p.eventType == Delete then
          s.(acquired := s.acquired - {n}, visible := s.visible - {n})
        else if RowStars(row).Some? then
          var e := RowStars(row).value;
          s.(acquired := s.acquired[n := e],
             visible := if e >= CalcStars(n) then s.visible + {n} else s.visible - {n})
        else if RowEstado(row).Some? then
          s.(visible := if RowEstado(row).value then s.visible + {n} else s.visible - {n})
        else s
  }

  /** What a push does to its own mission, and that no other mission changes. */
  lemma PushEffect(s: Store, p: Payload<MissionRow>, m: int)
    requires PayloadRow(p).Some? && RowNumber(PayloadRow(p).value).Val?
    ensures var row := PayloadRow(p).value;
      var n := RowNumber(row).v;
      var r := PushedProgress(s, p);
      (m != n ==> (m in r.acquired <==> m in s.acquired) && Got(r.acquired, m) == Got(s.acquired, m) &&
                  (m in r.visible <==> m in s.visible)) &&
      (p.eventType == Delete ==> n !in r.acquired && n !in r.visible) &&
      (p.eventType != Delete && row.estrellas.Val? ==>
         Got(r.acquired, n) == row.estrellas.v && (n in r.visible <==> row.estrellas.v >= CalcStars(n))) &&
      (p.eventType != Delete && !row.estrellas.Val? && row.estado.Val? ==>
         r.acquired == s.acquired && (n in r.visible <==> row.estado.v))
  {
  }

  /** Applying the same change twice gives the same store as applying it once. */
  lemma PushIdempotent(s: Store, p: Payload<MissionRow>)
    ensures PushedProgress(PushedProgress(s, p), p) == PushedProgress(s, p)
  {
    var r := PushedProgress(s, p);
    if PayloadRow(p).Some? && RowNumber(PayloadRow(p).value).Val? {
      var row := PayloadRow(p).value;
      var n := RowNumber(row).v;
      var rr := PushedProgress(r, p);
      if p.eventType == Delete {
        assert r.acquired - {n} == r.acquired;
        assert r.visible - {n} == r.visible;
      } else if RowStars(row).Some? {
        assert r.acquired[n := RowStars(row).value] == r.acquired;
      }
      assert rr.acquired == r.acquired;
      assert rr.visible == r.visible;
    }
  }

  /** A pushed star count is stored unclamped and bypasses the delay: mission 1
      (one star needed) can hold 7 stars, and is visible straight away. */
  lemma PushStoresUnclamped(s: Store)
    ensures var p := Payload(Update, Some(MissionRow(Val(1), Undefined, Undefined, Undefined, Val(7), Undefined)), None);
      var r := PushedProgress(s, p);
      Got(r.acquired, 1) == 7 > CalcStars(1) && 1 in r.visible && r.timers == s.timers
  {
  }

  /** An `estado`-only push can make a mission visible with none of its stars, so
      the push handler does not keep every visible mission complete. */
  lemma EstadoPushShowsIncomplete()
    ensures var s := Store(map[], {}, {}, None);
      var p := Payload(Update, Some(MissionRow(Val(4), Undefined, Undefined, Undefined, Undefined, Val(true))), None);
      VisibleAreComplete(s) && !VisibleAreComplete(PushedProgress(s, p))
  {
    var s := Store(map[], {}, {}, None);
    var p := Payload(Update, Some(MissionRow(Val(4), Undefined, Undefined, Undefined, Undefined, Val(true))), None);
    assert 4 in PushedProgress(s, p).visible;
    assert Got(PushedProgress(s, p).acquired, 4) == 0 < CalcStars(4);
  }

  /** A star-carrying push or a DELETE keeps every visible mission complete. */
  lemma StarsPushKeepsVisibleComplete(s: Store, p: Payload<MissionRow>)
    requires VisibleAreComplete(s)
    requires PayloadRow(p).Some?
    requires p.eventType == Delete || PayloadRow(p).value.estrellas.Val?
    ensures VisibleAreComplete(PushedProgress(s, p))
  {
  }

  /** The realtime `user_meta` handler: a row for another student is ignored when
      the display knows its student; otherwise a numeric `selected_mission`
      becomes the selection and anything else clears it. */
  function MetaPushed(s: Store, dbAlumno: Js<string>, p: Payload<MetaRow>): (r: Store)
    ensures PayloadRow(p).None? ==> r == s
    ensures PayloadRow(p).Some? && TruthyText(dbAlumno) && PayloadRow(p).value.alumno != dbAlumno ==> r == s
    ensures PayloadRow(p).Some? && (!TruthyText(dbAlumno) || PayloadRow(p).value.alumno == dbAlumno) ==>
              r == s.(selected := if PayloadRow(p).value.selected_mission.Val?
                                  then Some(PayloadRow(p).value.selected_mission.v) else None)
  {
    match PayloadRow(p)
    case None => s
    case Some(row) =>
      if TruthyText(dbAlumno) && row.alumno != dbAlumno then s
      else s.(selected := if row.selected_mission.Val? then Some(row.selected_mission.v) else None)
  }
}
