/** Rows of the `missions` and `user_meta` tables as the realtime handlers and
    the loaders receive them. Either the English (`number`, `title`) or the
    Spanish (`numero`, `titulo`) column names may be present. */
module Rows {
  import opened Js

  datatype MissionRow = MissionRow(
    number: Js<int>, numero: Js<int>,
    title: Js<string>, titulo: Js<string>,
    estrellas: Js<int>, estado: Js<bool>)

  datatype MetaRow = MetaRow(alumno: Js<string>, selected_mission: Js<int>)

  datatype EventType = Insert | Update | Delete

  /** A realtime change: the event type and the new and old row images (absent
      when the channel sends none). */
  datatype Payload<R> = Payload(eventType: EventType, newRow: Option<R>, oldRow: Option<R>)

  /** The row of a change event: the new row, or the old one when there is none. */
  function PayloadRow<R>(p: Payload<R>): Option<R>
  {
    if p.newRow.Some? then p.newRow else p.oldRow
  }

  /** The mission number: `number`, or `numero` when that is nullish. */
  function RowNumber(row: MissionRow): Js<int>
  {
    Coalesce(row.number, row.numero)
  }

  /** The title: `title`, or `titulo` when that is nullish. */
  function RowTitle(row: MissionRow): Js<string>
  {
    Coalesce(row.title, row.titulo)
  }

  /** The star count when the row carries a number there. */
  function RowStars(row: MissionRow): Option<int>
  {
    if row.estrellas.Val? then Some(row.estrellas.v) else None
  }

  /** The completion flag when the row carries a boolean there. */
  function RowEstado(row: MissionRow): Option<bool>
  {
    if row.estado.Val? then Some(row.estado.v) else None
  }

  /** `` `Misión ${n}` ``: the placeholder title. */
  function PlaceholderTitle(n: int): string
  {
    "Misión " + IntToString(n)
  }

  /** A placeholder title is never empty, so it is always truthy. */
  lemma PlaceholderTitleTruthy(n: int)
    ensures TruthyText(Val(PlaceholderTitle(n)))
  {
  }

  /** The student name read from the user data: its `nombre`, else its `id`, else
      the program's fallback ("Mateo" on the display, "Alumno" in the console). */
  function UserName(nombre: Js<string>, id: Js<string>, fallback: string): (name: string)
    requires fallback != ""
    ensures name != ""
    ensures TruthyText(nombre) ==> name == nombre.v
    ensures !TruthyText(nombre) && TruthyText(id) ==> name == id.v
    ensures !TruthyText(nombre) && !TruthyText(id) ==> name == fallback
  {
    if TruthyText(nombre) then nombre.v else if TruthyText(id) then id.v else fallback
  }
}
