/** The admin console: its own copy of the scoring rule, the completed-star
    total of its header, the star placeholders and reward counts of its cards,
    the increment and decrement buttons with the write they send, the mission
    list it fetches and the realtime merge into that list. */
module Admin {
  import opened Js
  import opened Lists
  import opened Rows
  import Scoring
  import Totals

  /** A mission of the admin list: `{number, title, estrellas, estado}`. */
  datatype Mission = Mission(number: int, title: Js<string>, estrellas: Js<int>, estado: Js<bool>)

  function Num(m: Mission): int { m.number }

  /** `selected`: `{type: 'mission', number}`, `{type: 'objective'}` or nothing. */
  datatype Selection = NoSelection | MissionSel(number: int) | ObjectiveSel

  /** The arguments of `updateMissionStars(n, stars)`: the row update sent. */
  datatype StarsWrite = StarsWrite(number: int, estrellas: int, estado: bool)

  /** The console's `calcStars`, written out separately from the display's; the
      two agree on every number. */
  function CalcStars(n: int): (r: int)
    ensures r == Scoring.CalcStars(n)
  {
    var pos := (if n - 1 >= 0 then (n - 1) % 10 else -((1 - n) % 10)) + 1;
    if pos <= 3 then 1 else if pos <= 7 then 2 else 3
  }

  /** The star count of a mission: its `estrellas` when that is a number, else 0. */
  function Stars(m: Mission): int
  {
    OrZero(m.estrellas)
  }

  /** A mission has all the stars it needs. */
  predicate Complete(m: Mission)
  {
    Stars(m) >= CalcStars(m.number)
  }

  /** What a mission adds to the header total. */
  function Contribution(m: Mission): int
  {
    if Complete(m) then CalcStars(m.number) else 0
  }

  /** The header total of a list of missions. */
  function CompletedStars(ms: seq<Mission>): (r: int)
    ensures 0 <= r <= 3 * |ms|
  {
    if ms == [] then 0 else CompletedStars(ms[..|ms| - 1]) + Contribution(ms[|ms| - 1])
  }

  /** The numbers of the complete missions. */
  ghost function CompleteNumbers(ms: seq<Mission>): set<int>
  {
    set m | m in ms && Complete(m) :: m.number
  }

  /** With distinct numbers the header total is the stars needed by the complete
      missions: each complete mission counts its `calcStars` once, and a
      missing or non-numeric `estrellas` counts as none. */
  lemma {:induction false} CompletedStarsIsSetStars(ms: seq<Mission>)
    requires DistinctKeys(ms, Num)
    ensures CompletedStars(ms) == Totals.SetStars(CompleteNumbers(ms))
  {
    if ms == [] {
      assert CompleteNumbers(ms) == {};
    } else {
      var init, last := ms[..|ms| - 1], ms[|ms| - 1];
      assert DistinctKeys(init, Num);
      CompletedStarsIsSetStars(init);
      assert forall m :: m in ms <==> m in init || m == last;
      if Complete(last) {
        assert last.number !in CompleteNumbers(init) by {
          forall m | m in init
            ensures m.number != last.number
          {
            var j :| 0 <= j < |init| && init[j] == m;
            assert ms[j] == m;
          }
        }
        assert CompleteNumbers(ms) == CompleteNumbers(init) + {last.number};
        assert CompleteNumbers(ms) - {last.number} == CompleteNumbers(init);
        Totals.SetStarsRemove(CompleteNumbers(ms), last.number);
      } else {
        assert CompleteNumbers(ms) == CompleteNumbers(init);
      }
    }
  }

  /** The first mission of the list with number `n`, if any. */
  function FindMission(ms: seq<Mission>, n: int): (r: Option<Mission>)
    ensures r.Some? <==> exists m :: m in ms && m.number == n
    ensures r.Some? ==> r.value in ms && r.value.number == n
  {
    var i := FindIndex(ms, Num, n);
    if i >= 0 then Some(ms[i]) else
      assert forall m :: m in ms ==> m.number != n by {
        forall m | m in ms ensures m.number != n {
          var j :| 0 <= j < |ms| && ms[j] == m;
        }
      }
      None
  }

  /** `find` returns the first mission with the number: no mission before it
      has that number. */
  lemma FindMissionFirst(ms: seq<Mission>, n: int)
    ensures FindMission(ms, n).Some? ==>
              exists i :: 0 <= i < |ms| && ms[i] == FindMission(ms, n).value &&
                forall j :: 0 <= j < i ==> ms[j].number != n
  {
    var i := FindIndex(ms, Num, n);
    if i >= 0 {
      assert forall j :: 0 <= j < i ==> Num(ms[j]) != n;
    }
  }

  /** The mission a card of `renderMissions` shows for number `n`: the listed one,
      or a placeholder with no stars. */
  function ShownMission(ms: seq<Mission>, n: int): (r: Mission)
    ensures r.number == n
    ensures FindMission(ms, n).Some? ==> r == FindMission(ms, n).value
    ensures FindMission(ms, n).None? ==> r.title == Val(PlaceholderTitle(n)) && Stars(r) == 0
  {
    match FindMission(ms, n)
    case Some(m) => m
    case None => Mission(n, Val(PlaceholderTitle(n)), Val(0), Undefined)
  }

  /** What number `i` adds to a reward card: its `calcStars` when the first
      listed mission with that number is complete. */
  function CardContribution(ms: seq<Mission>, i: int): int
  {
    match FindMission(ms, i)
    case Some(m) => if Stars(m) >= CalcStars(i) then CalcStars(i) else 0
    case None => 0
  }

  /** The reward card count over numbers `1..end`. */
  function AccUpTo(ms: seq<Mission>, end: int): int
    decreases end
  {
    if end <= 0 then 0 else AccUpTo(ms, end - 1) + CardContribution(ms, end)
  }

  /** The reward card count never exceeds the stars missions `1..end` need, and
      reaches it exactly when each of them is listed and complete. */
  lemma AccBound(ms: seq<Mission>, end: int)
    ensures 0 <= AccUpTo(ms, end) <= Scoring.StarsUpTo(end)
    ensures AccUpTo(ms, end) == Scoring.StarsUpTo(end) <==> forall n :: 1 <= n <= end ==> ListedComplete(ms, n)
  {
    AccRange(ms, end);
    AccFull(ms, end);
  }

  /** Number `n` is listed and its first listed mission is complete. */
  predicate ListedComplete(ms: seq<Mission>, n: int)
  {
    FindMission(ms, n).Some? && Complete(FindMission(ms, n).value)
  }

  /** The step of the reward card count at number `end`. */
  lemma AccStep(ms: seq<Mission>, end: int)
    requires end > 0
    ensures AccUpTo(ms, end) == AccUpTo(ms, end - 1) + (if ListedComplete(ms, end) then CalcStars(end) else 0)
    ensures Scoring.StarsUpTo(end) == Scoring.StarsUpTo(end - 1) + CalcStars(end)
  {
  }

  lemma {:induction false} AccRange(ms: seq<Mission>, end: int)
    ensures 0 <= AccUpTo(ms, end) <= Scoring.StarsUpTo(end)
    decreases end
  {
    if end > 0 {
      AccRange(ms, end - 1);
      AccStep(ms, end);
    }
  }

  lemma {:induction false} AccFull(ms: seq<Mission>, end: int)
    ensures AccUpTo(ms, end) == Scoring.StarsUpTo(end) <==> forall n :: 1 <= n <= end ==> ListedComplete(ms, n)
    decreases end
  {
    if end > 0 {
      AccRange(ms, end - 1);
      AccFull(ms, end - 1);
      AccStep(ms, end);
      AllUpToStep(ms, end);
      FullStep(AccUpTo(ms, end - 1), Scoring.StarsUpTo(end - 1), CalcStars(end), ListedComplete(ms, end),
               forall n :: 1 <= n <= end - 1 ==> ListedComplete(ms, n),
               forall n :: 1 <= n <= end ==> ListedComplete(ms, n));
    }
  }

  /** The counting step of `AccFull`: a count that is at most its total reaches
      the new total exactly when it was full and the new number adds its stars. */
  lemma FullStep(acc: int, total: int, req: int, last: bool, before: bool, upTo: bool)
    requires acc <= total && req >= 1
    requires acc == total <==> before
    requires upTo <==> before && last
    ensures acc + (if last then req else 0) == total + req <==> upTo
  {
  }

  lemma AllUpToStep(ms: seq<Mission>, end: int)
    requires end >= 1
    ensures (forall n :: 1 <= n <= end ==> ListedComplete(ms, n)) <==>
            (forall n :: 1 <= n <= end - 1 ==> ListedComplete(ms, n)) && ListedComplete(ms, end)
  {
    if (forall n :: 1 <= n <= end - 1 ==> ListedComplete(ms, n)) && ListedComplete(ms, end) {
      forall n | 1 <= n <= end
        ensures ListedComplete(ms, n)
      {
        if n < end {
          assert 1 <= n <= end - 1;
        }
      }
    }
  }

  /** With distinct numbers, a reward card counts what the display counts for a
      visible set made of the complete missions. */
  lemma {:induction false} AccIsVisibleStars(ms: seq<Mission>, end: int)
    requires DistinctKeys(ms, Num)
    ensures AccUpTo(ms, end) == Totals.VisibleStarsUpTo(CompleteNumbers(ms), end)
    decreases end
  {
    if end > 0 {
      AccIsVisibleStars(ms, end - 1);
      match FindMission(ms, end)
      case None =>
        assert end !in CompleteNumbers(ms);
      case Some(m) =>
        if end in CompleteNumbers(ms) {
          var m' :| m' in ms && Complete(m') && m'.number == end;
          var i :| 0 <= i < |ms| && ms[i] == m;
          var j :| 0 <= j < |ms| && ms[j] == m';
          assert i == j;
        }
    }
  }

  /** A reward card never shows more than its threshold. */
  lemma AccWithinThreshold(ms: seq<Mission>, idx: int)
    requires 0 <= idx < Scoring.Blocks
    ensures 0 <= AccUpTo(ms, 10 * idx + 10) <= Scoring.Threshold(idx)
    ensures AccUpTo(ms, 10 * idx + 10) == Scoring.Threshold(idx) <==>
              forall n :: 1 <= n <= 10 * idx + 10 ==> ListedComplete(ms, n)
  {
    AccBound(ms, 10 * idx + 10);
    Scoring.ThresholdIsBlockStars(idx);
  }

  /** When all complete missions lie in `1..50` and numbers are distinct, the last
      reward card counts the header total. */
  lemma LastCardCountsTotal(ms: seq<Mission>)
    requires DistinctKeys(ms, Num)
    requires forall m :: m in ms && Complete(m) ==> 1 <= m.number <= 50
    ensures AccUpTo(ms, 50) == CompletedStars(ms)
  {
    AccIsVisibleStars(ms, 50);
    CompletedStarsIsSetStars(ms);
    Totals.RewardCountIsTotal(CompleteNumbers(ms), 50);
  }

  /** The stars of a mission card (`missionCardHTML`): `req` placeholders of which
      the first `clamp(got, 0, req)` are filled; the card is done exactly when all
      of them are. */
  method StarPlaceholders(m: Mission) returns (gotCapped: int, filled: seq<bool>, isDone: bool)
    ensures |filled| == CalcStars(m.number)
    ensures gotCapped == Scoring.Clamp(Stars(m), 0, CalcStars(m.number))
    ensures forall i :: 0 <= i < |filled| ==> (filled[i] <==> i < gotCapped)
    ensures isDone <==> Complete(m)
    ensures isDone <==> gotCapped == |filled|
  {
    var got := Stars(m);
    var req := CalcStars(m.number);
    isDone := got >= req;
    gotCapped := Scoring.Max(0, Scoring.Min(got, req));
    filled := [];
    var i := 1;
    while i <= req
      invariant 1 <= i <= req + 1
      invariant |filled| == i - 1
      invariant forall k :: 0 <= k < |filled| ==> (filled[k] <==> k < gotCapped)
    {
      filled := filled + [i <= gotCapped];
      i := i + 1;
    }
  }

  /** The `estado` written with a star count (`updateMissionStars`). */
  function EstadoFor(n: int, stars: int): bool
  {
    stars >= CalcStars(n)
  }

  /** `onInc`'s new count: one more, from no less than 0, capped at `calcStars` with
      no wrap; an over-full count comes down to the cap. */
  function IncStars(n: int, estrellas: Js<int>): (r: int)
    ensures 1 <= r <= CalcStars(n)
    ensures OrZero(estrellas) < CalcStars(n) ==> r == Scoring.Max(0, OrZero(estrellas)) + 1
    ensures OrZero(estrellas) >= CalcStars(n) ==> r == CalcStars(n)
  {
    Scoring.Min(CalcStars(n), Scoring.Max(0, OrZero(estrellas)) + 1)
  }

  /** `onDec`'s new count: one less, floored at 0. */
  function DecStars(estrellas: Js<int>): (r: int)
    ensures r >= 0
    ensures OrZero(estrellas) >= 1 ==> r == OrZero(estrellas) - 1
    ensures OrZero(estrellas) <= 1 ==> r == 0
  {
    Scoring.Max(0, OrZero(estrellas) - 1)
  }

  /** `k` presses of the increment button on one mission. */
  function Incs(n: int, estrellas: Js<int>, k: nat): int
    decreases k
  {
    if k == 0 then OrZero(estrellas) else IncStars(n, Val(Incs(n, estrellas, k - 1)))
  }

  /** Repeated increments climb one star per press from no less than 0 and then
      stay at the cap: pressing again at the cap changes nothing. */
  lemma {:induction false} IncsSaturate(n: int, estrellas: Js<int>, k: nat)
    requires k >= 1
    ensures Incs(n, estrellas, k) == Scoring.Min(CalcStars(n), Scoring.Max(0, OrZero(estrellas)) + k)
    ensures k >= CalcStars(n) ==> Incs(n, estrellas, k) == CalcStars(n)
    ensures Incs(n, estrellas, k) == CalcStars(n) ==> Incs(n, estrellas, k + 1) == CalcStars(n)
    decreases k
  {
    if k > 1 {
      IncsSaturate(n, estrellas, k - 1);
    }
  }

  /** Within `0..calcStars`, decrement undoes increment and increment undoes
      decrement. */
  lemma IncDecRoundTrip(n: int, s: int)
    ensures 0 <= s < CalcStars(n) ==> DecStars(Val(IncStars(n, Val(s)))) == s
    ensures 1 <= s <= CalcStars(n) ==> IncStars(n, Val(DecStars(Val(s)))) == s
  {
  }

  /** The list index `onInc` and `onDec` act on: none unless a mission with a
      truthy number is selected and listed. */
  function SelectedIndex(ms: seq<Mission>, sel: Selection): (i: int)
    ensures -1 <= i < |ms|
    ensures 0 <= i ==> sel.MissionSel? && sel.number != 0 && ms[i].number == sel.number
    ensures 0 <= i ==> forall j :: 0 <= j < i ==> ms[j].number != sel.number
    ensures i == -1 && sel.MissionSel? && sel.number != 0 ==> forall j :: 0 <= j < |ms| ==> ms[j].number != sel.number
  {
    if sel.MissionSel? && sel.number != 0 then FindIndex(ms, Num, sel.number) else -1
  }

  /** The mission entry of a row of the initial query: the number falls back to
      `numero`, the title to `titulo` and then to the placeholder title; rows
      without a numeric number are dropped. */
  function NormalizedRow(row: MissionRow): (r: Option<Mission>)
    ensures r.Some? <==> RowNumber(row).Val?
    ensures r.Some? ==> r.value.number == RowNumber(row).v && TruthyText(r.value.title) &&
                        r.value.estrellas == row.estrellas && r.value.estado == row.estado
    ensures r.Some? && TruthyText(RowTitle(row)) ==> r.value.title == RowTitle(row)
  {
    var num := RowNumber(row);
    if num.Val? then
      var title := RowTitle(row);
      Some(Mission(num.v, if TruthyText(title) then title else Val(PlaceholderTitle(num.v)),
                   row.estrellas, row.estado))
    else None
  }

  /** The mapped and filtered rows, in query order. */
  function KeptMissions(rows: seq<MissionRow>): (r: seq<Mission>)
    ensures forall m :: m in r <==> exists row :: row in rows && NormalizedRow(row) == Some(m)
    ensures forall m :: m in r ==> TruthyText(m.title)
    ensures |r| <= |rows|
  {
    if rows == [] then []
    else
      assert forall row :: row in rows <==> row == rows[0] || row in rows[1..];
      match NormalizedRow(rows[0])
      case Some(m) => [m] + KeptMissions(rows[1..])
      case None => KeptMissions(rows[1..])
  }

  /** The fallback list: 100 placeholder missions numbered from 1, in ascending
      order without repeated numbers, each found by its number, titled, and
      without stars. */
  function Placeholders(): (r: seq<Mission>)
    ensures |r| == 100
    ensures forall i :: 0 <= i < 100 ==> r[i] == Mission(i + 1, Val(PlaceholderTitle(i + 1)), Val(0), Val(false))
    ensures Sorted(r, Num) && DistinctKeys(r, Num)
    ensures forall n :: 1 <= n <= 100 ==> FindMission(r, n) == Some(r[n - 1])
    ensures forall m :: m in r ==> TruthyText(m.title) && !Complete(m)
  {
    seq(100, i => Mission(i + 1, Val(PlaceholderTitle(i + 1)), Val(0), Val(false)))
  }

  /** `fetchMissions`: the kept rows sorted by number, or the hundred placeholders
      when the query failed or kept nothing. */
  function FetchedMissions(fetched: Option<seq<MissionRow>>): (r: seq<Mission>)
    ensures Sorted(r, Num) && |r| >= 1
    ensures forall m :: m in r ==> TruthyText(m.title)
    ensures fetched.Some? && KeptMissions(fetched.value) != [] ==>
              multiset(r) == multiset(KeptMissions(fetched.value))
    ensures (fetched.None? || KeptMissions(fetched.value) == []) ==> r == Placeholders()
  {
    var rows := if fetched.Some? then SortBy(KeptMissions(fetched.value), Num) else [];
    if |rows| > 0 then
      assert forall m :: m in rows ==> m in multiset(KeptMissions(fetched.value));
      rows
    else
      var p := Placeholders();
      assert forall m :: m in p ==> TruthyText(m.title) by {
        forall m | m in p ensures TruthyText(m.title) {
          var i :| 0 <= i < 100 && p[i] == m;
        }
      }
      p
  }

  /** A listed mission takes the fields the realtime row carries: the title when
      it is not `undefined`, numeric `estrellas`, boolean `estado`. */
  function Updated(m: Mission, row: MissionRow): (r: Mission)
    ensures r.number == m.number
    ensures r.title == if RowTitle(row) == Undefined then m.title else RowTitle(row)
    ensures r.estrellas == if RowStars(row).Some? then Val(RowStars(row).value) else m.estrellas
    ensures r.estado == if RowEstado(row).Some? then Val(RowEstado(row).value) else m.estado
  {
    var title := RowTitle(row);
    var estrellas := RowStars(row);
    var estado := RowEstado(row);
    m.(title := if title != Undefined then title else m.title,
       estrellas := if estrellas.Some? then Val(estrellas.value) else m.estrellas,
       estado := if estado.Some? then Val(estado.value) else m.estado)
  }

  /** The mission a realtime row adds for an unknown number: `title || 'Misión ' +
      num`, numeric `estrellas` or 0, and `!!estado`. */
  function Inserted(n: int, row: MissionRow): (r: Mission)
    ensures r.number == n && TruthyText(r.title) && r.estrellas.Val? && r.estado.Val?
    ensures TruthyText(RowTitle(row)) ==> r.title == RowTitle(row)
    ensures RowStars(row).Some? ==> r.estrellas == Val(RowStars(row).value)
    ensures RowStars(row).None? ==> r.estrellas == Val(0)
    ensures r.estado.v <==> RowEstado(row) == Some(true)
  {
    var title := RowTitle(row);
    Mission(n, if TruthyText(title) then title else Val(PlaceholderTitle(n)),
            Val(if RowStars(row).Some? then RowStars(row).value else 0),
            Val(RowEstado(row) == Some(true)))
  }

  /** The realtime merge of the console: whatever the event type, a listed number
      takes the row's fields and an unknown numeric number is inserted and the
      list re-sorted. */
  function Merged(ms: seq<Mission>, p: Payload<MissionRow>): seq<Mission>
  {
    match PayloadRow(p)
    case None => ms
    case Some(row) =>
      var num := RowNumber(row);
      var i := if num.Val? then FindIndex(ms, Num, num.v) else -1;
      if i >= 0 then ms[i := Updated(ms[i], row)]
      else if num.Val? then SortBy(ms + [Inserted(num.v, row)], Num)
      else ms
  }

  /** The merge keeps the list sorted by number. */
  lemma MergeKeepsSorted(ms: seq<Mission>, p: Payload<MissionRow>)
    requires Sorted(ms, Num)
    ensures Sorted(Merged(ms, p), Num)
  {
  }

  /** A row for a listed number changes only that entry; one for an unknown
      numeric number adds exactly its new entry; any other row changes nothing. */
  lemma MergeEffect(ms: seq<Mission>, p: Payload<MissionRow>)
    requires PayloadRow(p).Some?
    ensures var row := PayloadRow(p).value;
      var num := RowNumber(row);
      var r := Merged(ms, p);
      (!num.Val? ==> r == ms) &&
      (num.Val? && FindMission(ms, num.v).Some? ==>
         var i := FindIndex(ms, Num, num.v);
         |r| == |ms| && r[i] == Updated(ms[i], row) &&
         forall j :: 0 <= j < |ms| && j != i ==> r[j] == ms[j]) &&
      (num.Val? && FindMission(ms, num.v).None? ==>
         multiset(r) == multiset(ms) + multiset{Inserted(num.v, row)})
  {
  }

  /** A DELETE is merged like any other event: deleting an unknown number inserts
      it, and deleting a listed one leaves it listed. */
  lemma DeleteIsMerged()
    ensures var row := MissionRow(Val(7), Undefined, Undefined, Undefined, Undefined, Undefined);
      Merged([], Payload(Delete, None, Some(row))) ==
        [Mission(7, Val(PlaceholderTitle(7)), Val(0), Val(false))]
    ensures var m := Mission(7, Val("a"), Val(1), Val(false));
      var row := MissionRow(Val(7), Undefined, Undefined, Undefined, Undefined, Undefined);
      Merged([m], Payload(Delete, None, Some(row))) == [m]
  {
    var row := MissionRow(Val(7), Undefined, Undefined, Undefined, Undefined, Undefined);
    var x := Inserted(7, row);
    assert SortBy([x], Num) == [x] by {
      SortBySortedIsIdentity([x], Num);
    }
  }

  /** Merging the same row twice is merging it once, as long as its title is
      absent or truthy (an empty or `null` title first becomes the placeholder,
      then replaces it). */
  lemma MergeIdempotent(ms: seq<Mission>, p: Payload<MissionRow>)
    requires PayloadRow(p).Some?
    requires RowTitle(PayloadRow(p).value) == Undefined || TruthyText(RowTitle(PayloadRow(p).value))
    ensures Merged(Merged(ms, p), p) == Merged(ms, p)
  {
    var row := PayloadRow(p).value;
    var num := RowNumber(row);
    if num.Val? {
      var i := FindIndex(ms, Num, num.v);
      if i >= 0 {
        MergeListedTwice(ms, p, row, i);
      } else {
        MergeUnknownTwice(ms, p, row);
      }
    }
  }

  lemma MergeListedTwice(ms: seq<Mission>, p: Payload<MissionRow>, row: MissionRow, i: int)
    requires PayloadRow(p) == Some(row) && RowNumber(row).Val?
    requires RowTitle(row) == Undefined || TruthyText(RowTitle(row))
    requires i == FindIndex(ms, Num, RowNumber(row).v) && i >= 0
    ensures Merged(Merged(ms, p), p) == Merged(ms, p)
  {
    var r := Merged(ms, p);
    var u := Updated(ms[i], row);
    assert r == ms[i := u];
    assert forall j :: 0 <= j < |r| ==> r[j].number == ms[j].number;
    assert FindIndex(r, Num, RowNumber(row).v) == i;
    assert Updated(u, row) == u;
    assert Merged(r, p) == r[i := Updated(r[i], row)];
  }

  lemma MergeUnknownTwice(ms: seq<Mission>, p: Payload<MissionRow>, row: MissionRow)
    requires PayloadRow(p) == Some(row) && RowNumber(row).Val?
    requires RowTitle(row) == Undefined || TruthyText(RowTitle(row))
    requires FindIndex(ms, Num, RowNumber(row).v) < 0
    ensures Merged(Merged(ms, p), p) == Merged(ms, p)
  {
    var n := RowNumber(row).v;
    var x := Inserted(n, row);
    var r := Merged(ms, p);
    assert r == SortBy(ms + [x], Num);
    InsertedIsFound(ms, x);
    var k := FindIndex(r, Num, n);
    assert RowEstado(row).Some? ==> (RowEstado(row) == Some(true) <==> RowEstado(row).value);
    assert Updated(x, row) == x;
    assert Merged(r, p) == r[k := Updated(r[k], row)];
    assert r[k := x] == r;
  }

  /** After inserting a mission with a new number and sorting, looking that
      number up finds the inserted mission. */
  lemma InsertedIsFound(ms: seq<Mission>, x: Mission)
    requires forall j :: 0 <= j < |ms| ==> ms[j].number != x.number
    ensures var r := SortBy(ms + [x], Num);
      0 <= FindIndex(r, Num, x.number) && r[FindIndex(r, Num, x.number)] == x
  {
    var r := SortBy(ms + [x], Num);
    assert x in multiset(r);
    var k := FindIndex(r, Num, x.number);
    assert k >= 0;
    assert r[k] in multiset(ms) + multiset{x};
    assert r[k] !in ms;
  }

  /** The console's state: the student, the mission list and the selection. */
  class Console {
    var alumno: string
    var missions: seq<Mission>
    var selected: Selection

    ghost predicate Valid()
      reads this
    {
      alumno != "" && Sorted(missions, Num)
    }

    /** `init`: the user and the mission list are fetched; nothing is selected. */
    constructor (nombre: Js<string>, id: Js<string>, fetched: Option<seq<MissionRow>>)
      ensures Valid()
      ensures alumno == UserName(nombre, id, "Alumno")
      ensures missions == FetchedMissions(fetched)
      ensures selected == NoSelection
    {
      alumno := UserName(nombre, id, "Alumno");
      missions := FetchedMissions(fetched);
      selected := NoSelection;
    }

    /** `sumCompletedStars`: the header total. */
    method SumCompletedStars() returns (total: int)
      ensures total == CompletedStars(missions)
    {
      total := 0;
      var k := 0;
      while k < |missions|
        invariant 0 <= k <= |missions|
        invariant total == CompletedStars(missions[..k])
      {
        var m := missions[k];
        var req := CalcStars(m.number);
        var got := Stars(m);
        if got >= req {
          total := total + req;
        }
        assert missions[..k + 1][..k] == missions[..k];
        k := k + 1;
      }
      assert missions[..k] == missions;
    }

    /** The count and threshold of reward card `blockIdx` (`rewardCardHTML`). */
    method RewardAcc(blockIdx: int) returns (acc: int, threshold: int)
      ensures acc == AccUpTo(missions, blockIdx * 10 + 10)
      ensures threshold == Scoring.Threshold(blockIdx)
    {
      var thresholds := [20, 40, 60, 80, 100];
      threshold := if 0 <= blockIdx < |thresholds| then thresholds[blockIdx] else 20;
      var end := blockIdx * 10 + 10;
      acc := 0;
      var i := 1;
      while i <= end
        invariant i == 1 || 1 <= i <= end + 1
        invariant acc == AccUpTo(missions, i - 1)
      {
        var found := FindMission(missions, i);
        ghost var before := acc;
        if found.Some? {
          var req := CalcStars(i);
          var got := Stars(found.value);
          if got >= req {
            acc := acc + req;
          }
        }
        assert acc == before + CardContribution(missions, i);
        assert AccUpTo(missions, i) == AccUpTo(missions, i - 1) + CardContribution(missions, i);
        i := i + 1;
      }
    }

    /** A click on mission card `n`: the card becomes the selection. */
    method SelectMissionCard(n: int)
      modifies this
      ensures selected == MissionSel(n)
      ensures alumno == old(alumno) && missions == old(missions)
    {
      selected := MissionSel(n);
    }

    /** A click on the objective card. */
    method SelectObjectiveCard()
      modifies this
      ensures selected == ObjectiveSel
      ensures alumno == old(alumno) && missions == old(missions)
    {
      selected := ObjectiveSel;
    }

    /** The stored selection read at start-up: taken only when it is a number. */
    method LoadSelected(sel: Js<int>)
      modifies this
      ensures selected == if sel.Val? then MissionSel(sel.v) else old(selected)
      ensures alumno == old(alumno) && missions == old(missions)
    {
      if sel.Val? {
        selected := MissionSel(sel.v);
      }
    }

    /** The realtime `user_meta` handler: a row of this student sets the selection
        to its numeric mission, or clears it. */
    method OnMetaPush(p: Payload<MetaRow>)
      modifies this
      ensures alumno == old(alumno) && missions == old(missions)
      ensures PayloadRow(p).None? || PayloadRow(p).value.alumno != Val(alumno) ==> selected == old(selected)
      ensures PayloadRow(p).Some? && PayloadRow(p).value.alumno == Val(alumno) ==>
                selected == if PayloadRow(p).value.selected_mission.Val?
                            then MissionSel(PayloadRow(p).value.selected_mission.v) else NoSelection
    {
      var row := PayloadRow(p);
      if row.None? {
        return;
      }
      if row.value.alumno != Val(alumno) {
        return;
      }
      var sel2 := row.value.selected_mission;
      if sel2.Val? {
        selected := MissionSel(sel2.v);
      } else {
        selected := NoSelection;
      }
    }

    /** `onInc`: the selected mission gets one more star up to its cap, and the new
        count is written with the `estado` the card then shows. Nothing happens
        without a selected, listed mission (an unlisted one makes the handler
        throw before any change). */
    method OnInc() returns (write: Option<StarsWrite>)
      requires Valid()
      modifies this
      ensures Valid()
      ensures selected == old(selected) && alumno == old(alumno)
      ensures var i := SelectedIndex(old(missions), old(selected));
        (i < 0 ==> missions == old(missions) && write.None?) &&
        (0 <= i ==> var m := old(missions)[i];
           var next := IncStars(m.number, m.estrellas);
           missions == old(missions)[i := m.(estrellas := Val(next))] &&
           write == Some(StarsWrite(m.number, next, EstadoFor(m.number, next))) &&
           (write.value.estado <==> Complete(missions[i])))
    {
      if !selected.MissionSel? || selected.number == 0 {
        return None;
      }
      var i := FindIndex(missions, Num, selected.number);
      if i < 0 {
        return None;
      }
      var m := missions[i];
      var req := CalcStars(m.number);
      var current := Scoring.Max(0, OrZero(m.estrellas));
      var next := Scoring.Min(req, current + 1);
      missions := missions[i := m.(estrellas := Val(next))];
      write := Some(StarsWrite(m.number, next, EstadoFor(m.number, next)));
    }

    /** `onDec`: the selected mission loses one star, floored at 0, and the new count
        is written with its `estado`; the same no-op cases as `onInc`. */
    method OnDec() returns (write: Option<StarsWrite>)
      requires Valid()
      modifies this
      ensures Valid()
      ensures selected == old(selected) && alumno == old(alumno)
      ensures var i := SelectedIndex(old(missions), old(selected));
        (i < 0 ==> missions == old(missions) && write.None?) &&
        (0 <= i ==> var m := old(missions)[i];
           var next := DecStars(m.estrellas);
           missions == old(missions)[i := m.(estrellas := Val(next))] &&
           write == Some(StarsWrite(m.number, next, EstadoFor(m.number, next))) &&
           (write.value.estado <==> Complete(missions[i])))
    {
      if !selected.MissionSel? || selected.number == 0 {
        return None;
      }
      var i := FindIndex(missions, Num, selected.number);
      if i < 0 {
        return None;
      }
      var m := missions[i];
      var got := Scoring.Max(0, OrZero(m.estrellas) - 1);
      missions := missions[i := m.(estrellas := Val(got))];
      write := Some(StarsWrite(m.number, got, EstadoFor(m.number, got)));
    }

    /** The realtime `missions` handler of the console. */
    method ApplyPush(p: Payload<MissionRow>)
      requires Valid()
      modifies this
      ensures Valid()
      ensures missions == Merged(old(missions), p)
      ensures selected == old(selected) && alumno == old(alumno)
    {
      MergeKeepsSorted(missions, p);
      var row := PayloadRow(p);
      if row.None? {
        return;
      }
      var num := RowNumber(row.value);
      var idx := if num.Val? then FindIndex(missions, Num, num.v) else -1;
      if idx >= 0 {
        missions := missions[idx := Updated(missions[idx], row.value)];
      } else if num.Val? {
        missions := SortBy(missions + [Inserted(num.v, row.value)], Num);
      }
    }
  }
}
