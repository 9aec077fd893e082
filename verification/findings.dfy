/** The display's realtime `missions` handler as written keys the progress map
    and the visible set by the row's number (or `numero`) even when that is
    `undefined` or `null`. A row without a number then records a phantom
    mission whose `calcStars` still counts in the progress total. This module
    models the handler on JavaScript keys, exhibits the phantom stars, and shows
    that `Progress.PushedProgress`, which ignores such rows, agrees with it on
    every row that has a number. */
module Findings {
  import opened Js
  import opened Scoring
  import opened Rows
  import Totals
  import Progress

  /** The progress map and the visible set with JavaScript keys. */
  datatype JsStore = JsStore(acquired: map<Js<int>, int>, visible: set<Js<int>>)

  /** `calcStars` on a JavaScript key: `undefined - 1` is `NaN`, which fails both
      comparisons (3 stars); `null` counts as 0. */
  function JsCalcStars(k: Js<int>): (r: int)
    ensures k == Undefined ==> r == 3
    ensures k == Null ==> r == 1
    ensures k.Val? ==> r == CalcStars(k.v)
  {
    match k
    case Undefined => 3
    case Null => CalcStars(0)
    case Val(n) => CalcStars(n)
  }

  /** The numeric members of a set of keys. */
  ghost function Numbers(keys: set<Js<int>>): set<int>
  {
    set k | k in keys && k.Val? :: k.v
  }

  /** `totalStars` over a set that may hold nullish keys. */
  ghost function JsTotal(visible: set<Js<int>>): int
  {
    Totals.SetStars(Numbers(visible))
      + (if Undefined in visible then JsCalcStars(Undefined) else 0)
      + (if Null in visible then JsCalcStars(Null) else 0)
  }

  /** A store with numeric keys, seen with JavaScript keys. */
  function Lift(s: Progress.Store): JsStore
  {
    JsStore(map n | n in s.acquired :: Val(n) := s.acquired[n], set n | n in s.visible :: Val(n))
  }

  /** The progress part of the display's `missions` handler as written. */
  function PushedAsWritten(js: JsStore, p: Payload<MissionRow>): JsStore
  {
    match PayloadRow(p)
    case None => js
    case Some(row) =>
      var num := RowNumber(row);
      if p.eventType == Delete then
        JsStore(js.acquired - {num}, js.visible - {num})
      else if RowStars(row).Some? then
        var e := RowStars(row).value;
        JsStore(js.acquired[num := e],
                if e >= JsCalcStars(num) then js.visible + {num} else js.visible - {num})
      else if RowEstado(row).Some? then
        JsStore(js.acquired, if RowEstado(row).value then js.visible + {num} else js.visible - {num})
      else js
  }

  /** On a store with numeric keys the total is the display's total. */
  lemma LiftTotal(s: Progress.Store)
    ensures JsTotal(Lift(s).visible) == Totals.SetStars(s.visible)
  {
    var lifted := Lift(s).visible;
    forall n
      ensures n in Numbers(lifted) <==> n in s.visible
    {
      if n in s.visible {
        assert Val(n) in lifted;
      }
    }
    assert Numbers(lifted) == s.visible;
  }

  /** The totals of the empty set and of a lone phantom. */
  lemma PhantomTotals()
    ensures JsTotal({}) == 0 && JsTotal({Undefined}) == 3 && JsTotal({Null}) == 1
  {
    assert Numbers({}) == {};
    assert Numbers({Undefined}) == {};
    assert Numbers({Null}) == {};
  }

  /** A row without a number, carrying 3 stars, adds a phantom `undefined` mission
      worth 3 stars to an empty total; the corrected handler leaves the store as
      it was. */
  lemma NumberlessPushCountsPhantom()
    ensures var s := Progress.Store(map[], {}, {}, None);
      var p := Payload(Update, Some(MissionRow(Undefined, Undefined, Undefined, Undefined, Val(3), Undefined)), None);
      Lift(s) == JsStore(map[], {}) && Progress.PushedProgress(s, p) == s
    ensures var p := Payload(Update, Some(MissionRow(Undefined, Undefined, Undefined, Undefined, Val(3), Undefined)), None);
      JsTotal({}) == 0 && JsTotal(PushedAsWritten(JsStore(map[], {}), p).visible) == 3
  {
    PhantomTotals();
  }

  /** With `numero: null` and one star the phantom is a `null` mission worth 1. */
  lemma NullNumberCountsPhantom()
    ensures var s := Progress.Store(map[], {}, {}, None);
      var p := Payload(Insert, Some(MissionRow(Undefined, Null, Undefined, Undefined, Val(1), Undefined)), None);
      Progress.PushedProgress(s, p) == s
    ensures var p := Payload(Insert, Some(MissionRow(Undefined, Null, Undefined, Undefined, Val(1), Undefined)), None);
      JsTotal(PushedAsWritten(JsStore(map[], {}), p).visible) == 1
  {
    var p := Payload(Insert, Some(MissionRow(Undefined, Null, Undefined, Undefined, Val(1), Undefined)), None);
    assert RowNumber(PayloadRow(p).value) == Null;
    assert JsCalcStars(Null) == 1;
    assert PushedAsWritten(JsStore(map[], {}), p).visible == {Null};
    PhantomTotals();
  }

  /** The corrected handler is the handler as written on every row that has a
      number, and ignores the rows that do not. */
  lemma CorrectedMatchesOnNumbers(s: Progress.Store, p: Payload<MissionRow>)
    ensures PayloadRow(p).None? || RowNumber(PayloadRow(p).value).Val? ==>
              Lift(Progress.PushedProgress(s, p)) == PushedAsWritten(Lift(s), p)
    ensures PayloadRow(p).Some? && !RowNumber(PayloadRow(p).value).Val? ==>
              Progress.PushedProgress(s, p) == s
  {
    if PayloadRow(p).Some? && RowNumber(PayloadRow(p).value).Val? {
      var row := PayloadRow(p).value;
      var n := RowNumber(row).v;
      var r := Progress.PushedProgress(s, p);
      var w := PushedAsWritten(Lift(s), p);
      assert Lift(r).acquired == w.acquired;
      assert Lift(r).visible == w.visible;
    }
  }
}
