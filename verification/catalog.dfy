/** The display's mission catalogue (`missions`: number and title of each card):
    how it is built from the query result, and how a realtime change to the
    `missions` table edits it. */
module Catalog {
  import opened Js
  import opened Rows
  import opened Lists

  datatype CatalogEntry = CatalogEntry(numero: int, titulo: Js<string>)

  function Numero(e: CatalogEntry): int { e.numero }

  /** The catalogue entry of one row of the initial query: number and title with
      their Spanish fallbacks, kept only when the number is numeric and the title
      non-empty. */
  function EntryOf(row: MissionRow): Option<CatalogEntry>
  {
    if RowNumber(row).Val? && TruthyText(RowTitle(row))
    then Some(CatalogEntry(RowNumber(row).v, RowTitle(row)))
    else None
  }

  /** The entries that survive the filter, in query order. */
  function KeptEntries(rows: seq<MissionRow>): (r: seq<CatalogEntry>)
    ensures forall e :: e in r <==> exists row :: row in rows && EntryOf(row) == Some(e)
    ensures forall e :: e in r ==> TruthyText(e.titulo)
    ensures |r| <= |rows|
  {
    if rows == [] then []
    else
      assert forall row :: row in rows <==> row == rows[0] || row in rows[1..];
      match EntryOf(rows[0])
      case Some(e) => [e] + KeptEntries(rows[1..])
      case None => KeptEntries(rows[1..])
  }

  /** `k` placeholder entries numbered 1..k, each with its placeholder title: a
      catalogue in ascending order without repeated numbers, in which every
      number of 1..k is found at its own position and every title is truthy. */
  function Placeholders(k: nat): (r: seq<CatalogEntry>)
    ensures |r| == k
    ensures forall i :: 0 <= i < k ==> r[i].numero == i + 1 && r[i].titulo == Val(PlaceholderTitle(i + 1))
    ensures Sorted(r, Numero) && DistinctKeys(r, Numero)
    ensures forall n :: 1 <= n <= k ==> FindEntry(r, Val(n)) == n - 1
    ensures forall e :: e in r ==> TruthyText(e.titulo)
  {
    var r := seq(k, i => CatalogEntry(i + 1, Val(PlaceholderTitle(i + 1))));
    assert forall i :: 0 <= i < k ==> Numero(r[i]) == i + 1;
    NumberedFromOne(r, Numero);
    assert forall e :: e in r ==> TruthyText(e.titulo) by {
      forall e | e in r
        ensures TruthyText(e.titulo)
      {
        var i :| 0 <= i < k && r[i] == e;
        PlaceholderTitleTruthy(i + 1);
      }
    }
    r
  }

  /** The catalogue `init` installs: the kept rows sorted by number when the query
      succeeded and kept something, the fifty placeholders otherwise (`None` is a
      failed query; a `null` result is the empty sequence). */
  function InitialCatalog(fetched: Option<seq<MissionRow>>): (r: seq<CatalogEntry>)
    ensures Sorted(r, Numero)
    ensures |r| >= 1
    ensures forall e :: e in r ==> TruthyText(e.titulo)
    ensures fetched.Some? && KeptEntries(fetched.value) != [] ==>
              multiset(r) == multiset(KeptEntries(fetched.value))
    ensures (fetched.None? || KeptEntries(fetched.value) == []) ==> r == Placeholders(50)
  {
    var rows := if fetched.Some? then SortBy(KeptEntries(fetched.value), Numero) else [];
    if |rows| > 0 then
      assert forall e :: e in rows ==> e in multiset(KeptEntries(fetched.value));
      rows
    else
      var p := Placeholders(50);
      assert forall e :: e in p ==> TruthyText(e.titulo);
      p
  }

  /** The index of the entry numbered `num`, or -1; a non-numeric `num` matches nothing. */
  function FindEntry(ms: seq<CatalogEntry>, num: Js<int>): (i: int)
    ensures -1 <= i < |ms|
    ensures 0 <= i ==> num.Val? && ms[i].numero == num.v
    ensures i == -1 <==> !num.Val? || forall j :: 0 <= j < |ms| ==> ms[j].numero != num.v
    ensures 0 <= i ==> forall j :: 0 <= j < i ==> ms[j].numero != num.v
  {
    if num.Val? then FindIndex(ms, Numero, num.v) else -1
  }

  /** The entry inserted for an unknown number: the pushed title, or the placeholder
      title when that is empty or missing. */
  function NewEntry(n: int, title: Js<string>): (e: CatalogEntry)
    ensures e.numero == n && TruthyText(e.titulo)
    ensures TruthyText(title) ==> e.titulo == title
  {
    CatalogEntry(n, if TruthyText(title) then title else Val(PlaceholderTitle(n)))
  }

  /** The catalogue part of the realtime `missions` handler: a DELETE drops the
      first entry with the number; any other event sets the title of the first
      entry with the number when the payload carries a title, or inserts a new
      entry and re-sorts when the number is unknown. */
  function PushedCatalog(ms: seq<CatalogEntry>, p: Payload<MissionRow>): seq<CatalogEntry>
  {
    match PayloadRow(p)
    case None => ms
    case Some(row) =>
      var num := RowNumber(row);
      var title := RowTitle(row);
      var i := FindEntry(ms, num);
      if p.eventType == Delete then
        if i >= 0 then RemoveAt(ms, i) else ms
      else if i >= 0 then
        if title != Undefined then ms[i := ms[i].(titulo := title)] else ms
      else if num.Val? then
        SortBy(ms + [NewEntry(num.v, title)], Numero)
      else ms
  }

  /** Every push keeps the catalogue in ascending order of number. */
  lemma PushKeepsCatalogSorted(ms: seq<CatalogEntry>, p: Payload<MissionRow>)
    requires Sorted(ms, Numero)
    ensures Sorted(PushedCatalog(ms, p), Numero)
  {
    if PayloadRow(p).Some? {
      var row := PayloadRow(p).value;
      var i := FindEntry(ms, RowNumber(row));
      if p.eventType == Delete && i >= 0 {
        RemoveAtKeepsOrder(ms, i, Numero);
      }
    }
  }

  lemma RemoveKeepsOthers(ms: seq<CatalogEntry>, i: int, e: CatalogEntry)
    requires 0 <= i < |ms| && e != ms[i]
    ensures e in RemoveAt(ms, i) <==> e in ms
  {
    var r := RemoveAt(ms, i);
    assert e in r <==> e in multiset(r);
  }

  lemma RetitleKeepsOthers(ms: seq<CatalogEntry>, i: int, t: Js<string>, e: CatalogEntry)
    requires 0 <= i < |ms| && e.numero != ms[i].numero
    ensures e in ms[i := ms[i].(titulo := t)] <==> e in ms
  {
    var r := ms[i := ms[i].(titulo := t)];
    if e in ms {
      var j :| 0 <= j < |ms| && ms[j] == e;
      assert r[j] == e;
    }
    if e in r {
      var j :| 0 <= j < |r| && r[j] == e;
      assert ms[j] == e;
    }
  }

  lemma InsertSortedKeepsOthers(ms: seq<CatalogEntry>, x: CatalogEntry, e: CatalogEntry)
    requires e != x
    ensures e in SortBy(ms + [x], Numero) <==> e in ms
  {
    var ins := ms + [x];
    var r := SortBy(ins, Numero);
    assert e in r <==> e in multiset(ins);
    assert e in ins <==> e in ms;
  }

  /** Entries for other numbers are never touched: the push only ever edits,
      removes or adds an entry whose number is the payload's. */
  lemma PushTouchesOnlyItsNumber(ms: seq<CatalogEntry>, p: Payload<MissionRow>, e: CatalogEntry)
    requires PayloadRow(p).Some?
    requires RowNumber(PayloadRow(p).value) != Val(e.numero)
    ensures e in PushedCatalog(ms, p) <==> e in ms
  {
    var row := PayloadRow(p).value;
    var num := RowNumber(row);
    var title := RowTitle(row);
    var i := FindEntry(ms, num);
    var r := PushedCatalog(ms, p);
    if p.eventType == Delete {
      if i >= 0 {
        assert r == RemoveAt(ms, i);
        RemoveKeepsOthers(ms, i, e);
      } else {
        assert r == ms;
      }
    } else if i >= 0 {
      if title != Undefined {
        assert r == ms[i := ms[i].(titulo := title)];
        RetitleKeepsOthers(ms, i, title, e);
      } else {
        assert r == ms;
      }
    } else if num.Val? {
      assert r == SortBy(ms + [NewEntry(num.v, title)], Numero);
      InsertSortedKeepsOthers(ms, NewEntry(num.v, title), e);
    } else {
      assert r == ms;
    }
  }

  /** After a non-DELETE push for a numeric number the catalogue has an entry for
      it, carrying the pushed title when the payload had one and a truthy title
      when it was inserted. */
  lemma PushMakesNumberKnown(ms: seq<CatalogEntry>, p: Payload<MissionRow>)
    requires PayloadRow(p).Some? && p.eventType != Delete
    requires RowNumber(PayloadRow(p).value).Val?
    ensures var row := PayloadRow(p).value;
      var r := PushedCatalog(ms, p);
      var k := FindEntry(r, RowNumber(row));
      0 <= k &&
      (RowTitle(row) != Undefined && FindEntry(ms, RowNumber(row)) >= 0 ==> r[k].titulo == RowTitle(row)) &&
      (FindEntry(ms, RowNumber(row)) < 0 ==> TruthyText(r[k].titulo))
  {
    var row := PayloadRow(p).value;
    var n := RowNumber(row).v;
    var r := PushedCatalog(ms, p);
    var i := FindEntry(ms, RowNumber(row));
    if i < 0 {
      var e := NewEntry(n, RowTitle(row));
      var ins := ms + [e];
      assert ins[|ms|] == e;
      assert e in multiset(r);
      var j :| 0 <= j < |r| && r[j] == e;
      var k := FindEntry(r, RowNumber(row));
      assert 0 <= k <= j;
      assert r[k] in multiset(ins);
      assert r[k] in ins;
      assert r[k] == e by {
        var m :| 0 <= m < |ins| && ins[m] == r[k];
        assert m == |ms|;
      }
    } else {
      var k := FindEntry(r, RowNumber(row));
      assert r[i].numero == n;
      assert k == i;
    }
  }

  /** A DELETE push drops exactly one entry for the number, when there is one. */
  lemma DeleteDropsOneEntry(ms: seq<CatalogEntry>, p: Payload<MissionRow>)
    requires PayloadRow(p).Some? && p.eventType == Delete
    ensures var i := FindEntry(ms, RowNumber(PayloadRow(p).value));
      var r := PushedCatalog(ms, p);
      (i < 0 ==> r == ms) &&
      (0 <= i ==> |r| == |ms| - 1 && multiset(r) == multiset(ms) - multiset{ms[i]})
  {
  }

  /** With one entry per number, a DELETE push leaves no entry for the number. */
  lemma DeleteRemovesNumber(ms: seq<CatalogEntry>, p: Payload<MissionRow>)
    requires PayloadRow(p).Some? && p.eventType == Delete
    requires DistinctKeys(ms, Numero)
    ensures FindEntry(PushedCatalog(ms, p), RowNumber(PayloadRow(p).value)) == -1
  {
    var num := RowNumber(PayloadRow(p).value);
    var i := FindEntry(ms, num);
    var r := PushedCatalog(ms, p);
    if i >= 0 {
      forall j | 0 <= j < |r|
        ensures r[j].numero != num.v
      {
        if j < i {
          assert r[j] == ms[j];
        } else {
          assert r[j] == ms[j + 1];
        }
      }
    }
  }

  /** Once an entry with an unlisted number is added, the entry found under that
      number is the added one. */
  lemma InsertedEntryFound(ms: seq<CatalogEntry>, e: CatalogEntry, r: seq<CatalogEntry>, k: int)
    requires forall j :: 0 <= j < |ms| ==> ms[j].numero != e.numero
    requires multiset(r) == multiset(ms + [e])
    requires 0 <= k < |r| && r[k].numero == e.numero
    ensures r[k] == e
  {
    var ins := ms + [e];
    assert r[k] in multiset(ins);
    var m :| 0 <= m < |ins| && ins[m] == r[k];
    assert m == |ms|;
  }

  /** Repeating a push changes nothing further when the payload's title is either
      absent or truthy (and, for a DELETE, each number has one entry). */
  lemma PushIdempotent(ms: seq<CatalogEntry>, p: Payload<MissionRow>)
    requires PayloadRow(p).Some?
    requires RowTitle(PayloadRow(p).value) == Undefined || TruthyText(RowTitle(PayloadRow(p).value))
    requires p.eventType == Delete ==> DistinctKeys(ms, Numero)
    ensures PushedCatalog(PushedCatalog(ms, p), p) == PushedCatalog(ms, p)
  {
    var row := PayloadRow(p).value;
    if p.eventType == Delete {
      DeleteRemovesNumber(ms, p);
    } else if RowNumber(row).Val? && RowTitle(row) != Undefined {
      RetitleRepeat(ms, p);
    } else if RowNumber(row).Val? {
      PushMakesNumberKnown(ms, p);
    }
  }

  /** A repeated non-delete push with a numbered row and a truthy title finds the
      entry the first one left with that title. */
  lemma RetitleRepeat(ms: seq<CatalogEntry>, p: Payload<MissionRow>)
    requires PayloadRow(p).Some? && p.eventType != Delete
    requires RowNumber(PayloadRow(p).value).Val? && TruthyText(RowTitle(PayloadRow(p).value))
    ensures PushedCatalog(PushedCatalog(ms, p), p) == PushedCatalog(ms, p)
  {
    var row := PayloadRow(p).value;
    var num := RowNumber(row);
    var title := RowTitle(row);
    var r := PushedCatalog(ms, p);
    PushMakesNumberKnown(ms, p);
    var k := FindEntry(r, num);
    if FindEntry(ms, num) < 0 {
      InsertedEntryFound(ms, NewEntry(num.v, title), r, k);
    }
    assert r[k].titulo == title;
    assert r[k := r[k].(titulo := title)] == r;
  }

  /** The exception: inserting a number whose title is the empty string stores the
      placeholder, and repeating the same payload then overwrites it with the
      empty title. */
  lemma EmptyTitleRepeatDiffers()
    ensures var p := Payload(Insert, Some(MissionRow(Val(7), Undefined, Val(""), Undefined, Undefined, Undefined)), None);
      var once := PushedCatalog([], p);
      once == [CatalogEntry(7, Val(PlaceholderTitle(7)))] &&
      PushedCatalog(once, p) == [CatalogEntry(7, Val(""))]
  {
    var p := Payload(Insert, Some(MissionRow(Val(7), Undefined, Val(""), Undefined, Undefined, Undefined)), None);
    var e := CatalogEntry(7, Val(PlaceholderTitle(7)));
    assert [] + [e] == [e];
    assert SortBy([e], Numero) == [e] by {
      assert [e][1..] == [];
    }
    var once := PushedCatalog([], p);
    assert once == [e];
    assert FindEntry(once, Val(7)) == 0;
  }
}
