/** The session table as the walks over it see it: who sits in each slot, in which room and with what standing. */
module Seating {
  import opened Sessions

  datatype Seat = Empty | Seated(room: int, name: string, ashsworn: bool, faction: string, morality: int)

  ghost function SeatOf(s: Session?): Seat
    reads s
  {
    if s == null then Empty else Seated(s.room, s.name, s.ashsworn, s.faction, s.morality)
  }

  ghost function Seats(table: array<Session?>): (r: seq<Seat>)
    reads table, set s: Session | s in table[..]
    ensures |r| == table.Length && forall i :: 0 <= i < |r| ==> r[i] == SeatOf(table[i])
  {
    seq(table.Length, i requires 0 <= i < table.Length reads table, set s: Session | s in table[..] => SeatOf(table[i]))
  }
}
