/** Finding another player by the start of a name: `find_player_prefix` of `asm/social.asm`. */
module Finder {
  import opened CStrings
  import opened Seating
  import opened Sessions

  /** Whether the player in a seat can be meant: in the room (any room if it is negative), named, not the one left
      out (nobody is, if that name is empty), and with a name that starts with the prefix. */
  predicate Meant(s: Seat, room: int, prefix: string, except: string) {
    prefix != "" && s.Seated? && (room < 0 || s.room == room) && s.name != "" &&
    (except == "" || !EqNoCase(s.name, except)) && StartsNoCase(s.name, prefix)
  }

  /** The loop over the slots: a second candidate ends it with nobody found. */
  function Found(seats: seq<Seat>, room: int, prefix: string, except: string, i: nat, found: int): int
    requires i <= |seats|
    decreases |seats| - i
  {
    if i == |seats| then found
    else if !Meant(seats[i], room, prefix, except) then Found(seats, room, prefix, except, i + 1, found)
    else if found >= 0 then -1
    else Found(seats, room, prefix, except, i + 1, i)
  }

  /** A player is found exactly when nobody else can be meant. */
  lemma {:induction false} FoundExactlyWhenAlone(seats: seq<Seat>, room: int, prefix: string, except: string,
                                                 i: nat, found: int, k: nat)
    requires i <= |seats| && k < |seats| && -1 <= found < i
    requires forall j :: 0 <= j < i ==> (Meant(seats[j], room, prefix, except) <==> j == found)
    ensures Found(seats, room, prefix, except, i, found) == k
      <==> forall j :: 0 <= j < |seats| ==> (Meant(seats[j], room, prefix, except) <==> j == k)
    decreases |seats| - i
  {
    if i < |seats| {
      if !Meant(seats[i], room, prefix, except) {
        FoundExactlyWhenAlone(seats, room, prefix, except, i + 1, found, k);
      } else if found < 0 {
        FoundExactlyWhenAlone(seats, room, prefix, except, i + 1, i, k);
      } else {
        assert Meant(seats[found], room, prefix, except) && Meant(seats[i], room, prefix, except) && found != i;
      }
    } else {
      assert Meant(seats[k], room, prefix, except) <==> k == found;
    }
  }

  /** With nobody left out, as `forgive` asks, a player finds themself by a prefix of the own name exactly when no
      other name in the room starts with it; with the own name left out, as `mend` and `give` ask, never. */
  lemma FindsOneselfExactlyWhen(seats: seq<Seat>, k: nat, prefix: string)
    requires k < |seats| && seats[k].Seated? && seats[k].name != "" && seats[k].room >= 0
    requires prefix != "" && StartsNoCase(seats[k].name, prefix)
    ensures Found(seats, seats[k].room, prefix, "", 0, -1) == k
      <==> forall j :: 0 <= j < |seats| && j != k ==> !Meant(seats[j], seats[k].room, prefix, "")
    ensures Found(seats, seats[k].room, prefix, seats[k].name, 0, -1) != k
  {
    FoundExactlyWhenAlone(seats, seats[k].room, prefix, "", 0, -1, k);
    FoundExactlyWhenAlone(seats, seats[k].room, prefix, seats[k].name, 0, -1, k);
    assert !Meant(seats[k], seats[k].room, prefix, seats[k].name);
  }

  /** The player found is here, is named, is not the one left out, and has a name that starts with the prefix in any
      case; and no other such player is here. */
  lemma FoundExactlyWhen(seats: seq<Seat>, room: int, prefix: string, except: string, k: nat)
    requires k < |seats| && prefix != ""
    ensures Found(seats, room, prefix, except, 0, -1) == k
      <==> forall j :: 0 <= j < |seats| ==>
             (j == k <==> && seats[j].Seated? && (room < 0 || seats[j].room == room) && seats[j].name != ""
                          && (except == "" || Lower(seats[j].name) != Lower(except))
                          && |prefix| <= |seats[j].name| && Lower(seats[j].name[..|prefix|]) == Lower(prefix))
  {
    FoundExactlyWhenAlone(seats, room, prefix, except, 0, -1, k);
    assert forall j :: 0 <= j < |seats| ==>
      (Meant(seats[j], room, prefix, except) <==>
        && seats[j].Seated? && (room < 0 || seats[j].room == room) && seats[j].name != ""
        && (except == "" || Lower(seats[j].name) != Lower(except))
        && |prefix| <= |seats[j].name| && Lower(seats[j].name[..|prefix|]) == Lower(prefix));
  }

  /** The session found, or null; `k` is its slot. */
  method FindPlayerPrefix(table: array<Session?>, room: int, prefix: string, except: string)
    returns (found: Session?, k: int)
    ensures k == Found(Seats(table), room, prefix, except, 0, -1)
    ensures if k < 0 then found == null else k < table.Length && found == table[k] && found != null
  {
    found, k := null, -1;
    ghost var seats := Seats(table);
    if prefix == "" {
      NobodyMeant(seats, room, except, 0);
      return;
    }
    var i := 0;
    while i < table.Length
      invariant 0 <= i <= table.Length && -1 <= k < i
      invariant Found(seats, room, prefix, except, 0, -1) == Found(seats, room, prefix, except, i, k)
      invariant if k < 0 then found == null else found == table[k] && found != null
    {
      var s := table[i];
      if s != null && (room < 0 || s.room == room) && s.name != "" && (except == "" || !EqNoCase(s.name, except))
         && StartsNoCase(s.name, prefix) {
        if found != null {
          return null, -1;
        }
        found, k := s, i;
      }
      i := i + 1;
    }
  }

  lemma {:induction false} NobodyMeant(seats: seq<Seat>, room: int, except: string, i: nat)
    requires i <= |seats|
    ensures Found(seats, room, "", except, i, -1) == -1
    decreases |seats| - i
  {
    if i < |seats| { NobodyMeant(seats, room, except, i + 1); }
  }
}
