/** The session block of `include/state.inc`: one per connection, updated in place by every component. Text fields
    hold C strings, one character per byte and none of them NUL. The socket handle 0 is the null handle. The output
    buffer, the reassembly buffer and the inventory are classes of their own, beside the code that owns them. */
module Sessions {
  datatype LoginState = Name | Token | Race | Passphrase | Play

  class Session {
    var state: LoginState
    var name: string
    var race: string
    var room: int
    var hp: int
    var maxHp: int
    var level: int
    var xp: int
    var gold: int
    var morality: int
    var addiction: int
    var ashsworn: bool
    var strayed: bool
    var redeemed: bool
    var resisted: bool
    var poisoned: bool
    var faction: string
    var position: string
    var title: string
    var weapon: string
    var target: bool
    var inCombat: bool
    var lastTick: int
    var marketDone: bool
    var wsi: nat
    var closing: bool
    var secretHash: string
    var keeperAuthed: bool
    var resuming: bool

    /** The block as `CONNECTED` leaves it: zeroed, then given the starting values. */
    constructor (wsi: nat)
      ensures this.wsi == wsi && state == Name && name == "" && secretHash == "" && !keeperAuthed
      ensures room == 0 && hp == 30 && maxHp == 30 && level == 1 && gold == 20 && xp == 0
      ensures morality == 0 && !ashsworn && !strayed && !redeemed && !marketDone && faction == "none"
      ensures race == "" && title == "" && addiction == 0 && !resisted && !poisoned && !resuming
      ensures !target && !inCombat && lastTick == 0 && position == "standing" && weapon == "" && !closing
    {
      this.wsi := wsi;
      state, name, race, room := Name, "", "", 0;
      hp, maxHp, level, xp, gold, morality, addiction := 30, 30, 1, 0, 20, 0, 0;
      ashsworn, strayed, redeemed, resisted, poisoned := false, false, false, false, false;
      faction, position, title, weapon := "none", "standing", "", "";
      target, inCombat, lastTick, marketDone, closing := false, false, 0, false, false;
      secretHash, keeperAuthed, resuming := "", false, false;
    }
  }
}
