/** What the combat clock of `asm/combat.asm` does to the world, as functions of the world's value: one shared
    glow-rat, the registered sessions, the heartbeat, and the commands that touch hit points or fights.
    `CombatWorld` is the in-place code and is proved equal to these functions; the properties proved here hold
    over every run. */
module Combat {
  import opened CStrings
  import opened Registry

  const COMBAT_MS := 2000
  const HEARTBEAT_MS := 2000
  const RESPAWN_MS := 20000
  const RAT_MAX_HP := 12
  const RAT_DAMAGE := 4
  const KILL_XP := 8
  const ROOM_NEXUS := 0
  const ROOM_TUNNELS := 6
  const ROOM_WAYSTATION := 16

  /** The part of a session block that fights and healing change. `wsi` is the cached socket handle and
      `slotWsi` the registry's copy of it; 0 is the null handle. */
  datatype Fighter = Fighter(
    hp: int, maxHp: int, xp: int, room: int, inCombat: bool, target: bool, lastTick: int,
    position: string, weapon: string, poisoned: bool, wsi: nat, slotWsi: nat)

  datatype Rat = Rat(hp: int, alive: bool, diedAt: int)

  /** The combat events a client can see, in order: a round fought (with the harm done to the fighter and the
      experience paid), a round that found the rat already gone, and the rat coming back. */
  datatype Entry<T> =
    | Swing(who: T, at: int, harm: int, award: int)
    | Gone(who: T, at: int)
    | Respawn(at: int)

  datatype World<T> = World(
    slots: seq<Slot<T, Fighter>>, count: int, rat: Rat,
    lastBeat: int, tick: int, clock: int, log: seq<Entry<T>>)

  // ---- One round -------------------------------------------------------------------------------------------

  function Strike(f: Fighter): int { if f.weapon == "shiv" then 8 else 5 }

  function Struck(rat: Rat, dmg: int): int { if rat.hp - dmg >= 0 then rat.hp - dmg else 0 }

  function Died(f: Fighter): Fighter {
    f.(hp := f.maxHp, room := ROOM_NEXUS, inCombat := false, target := false, poisoned := false)
  }

  ghost function RoundFighter(f: Fighter, rat: Rat): Fighter {
    if !f.target then f
    else if !rat.alive then f.(inCombat := false, target := false)
    else if Struck(rat, Strike(f)) <= 0 then f.(inCombat := false, target := false, xp := f.xp + KILL_XP)
    else if f.hp - RAT_DAMAGE <= 0 then Died(f.(hp := f.hp - RAT_DAMAGE))
    else f.(hp := f.hp - RAT_DAMAGE)
  }

  ghost function RoundRat(f: Fighter, rat: Rat, killedAt: int): Rat {
    if !f.target || !rat.alive then rat
    else
      var hp := Struck(rat, Strike(f));
      if hp <= 0 then Rat(hp, false, killedAt) else rat.(hp := hp)
  }

  ghost function RoundLog<T>(who: T, f: Fighter, rat: Rat, now: int): seq<Entry<T>> {
    if !f.target then []
    else if !rat.alive then [Gone(who, now)]
    else if Struck(rat, Strike(f)) <= 0 then [Swing(who, now, 0, KILL_XP)]
    else [Swing(who, now, RAT_DAMAGE, 0)]
  }

  // ---- The heartbeat ---------------------------------------------------------------------------------------

  function Wired(f: Fighter): Fighter { if f.wsi != 0 then f else f.(wsi := f.slotWsi) }

  /** `hg_session_pulse` on one slot: arm, wait, or re-arm and fight one round. */
  ghost function Pulse<T>(w: World<T>, i: nat, now: int, killedAt: int): World<T>
    requires i < |w.slots|
  {
    if w.slots[i].Vacant? then w
    else
      var who, f := w.slots[i].who, w.slots[i].body;
      if !f.inCombat || Wired(f).wsi == 0 then w
      else if f.lastTick == 0 then w.(slots := w.slots[i := Held(who, Wired(f).(lastTick := now + COMBAT_MS))])
      else if now < f.lastTick then w.(slots := w.slots[i := Held(who, Wired(f))])
      else
        var armed := Wired(f).(lastTick := now + COMBAT_MS);
        w.(slots := w.slots[i := Held(who, RoundFighter(armed, w.rat))],
           rat := RoundRat(armed, w.rat, killedAt),
           log := w.log + RoundLog(who, armed, w.rat, now))
  }

  ghost function PulseFrom<T>(w: World<T>, i: nat, now: int, killedAt: int): (r: World<T>)
    requires i <= |w.slots|
    ensures |r.slots| == |w.slots|
    decreases |w.slots| - i
  {
    if i == |w.slots| then w else PulseFrom(Pulse(w, i, now, killedAt), i + 1, now, killedAt)
  }

  /** `tick_session`: an idle, resting session regains two hit points, up to its maximum. */
  ghost function Ticked(f: Fighter): Fighter {
    var g := Wired(f);
    if g.wsi == 0 || g.inCombat || g.position != "resting" || g.hp >= g.maxHp then g
    else g.(hp := if g.hp + 2 <= g.maxHp then g.hp + 2 else g.maxHp)
  }

  ghost function TickAll<T>(slots: seq<Slot<T, Fighter>>): (r: seq<Slot<T, Fighter>>)
    ensures |r| == |slots|
    ensures forall i :: 0 <= i < |r| ==>
      r[i] == if slots[i].Vacant? then slots[i] else Held(slots[i].who, Ticked(slots[i].body))
  {
    seq(|slots|, i requires 0 <= i < |slots| =>
      if slots[i].Vacant? then slots[i] else Held(slots[i].who, Ticked(slots[i].body)))
  }

  ghost function WorldBeat<T>(w: World<T>, now: int): World<T> {
    if now < w.lastBeat + HEARTBEAT_MS then w
    else w.(lastBeat := now, tick := w.tick + 1, slots := TickAll(w.slots))
  }

  ghost predicate RespawnDue<T>(w: World<T>, now: int) {
    !w.rat.alive && w.rat.diedAt != 0 && now >= w.rat.diedAt + RESPAWN_MS
  }

  ghost function RespawnCheck<T>(w: World<T>, now: int): World<T> {
    if RespawnDue(w, now) then w.(rat := Rat(RAT_MAX_HP, true, 0), log := w.log + [Respawn(now)]) else w
  }

  /** `hg_heartbeat(now)`. `killedAt` is what the clock reads if a round of this beat kills the rat. */
  ghost function Beat<T>(w: World<T>, now: int, killedAt: int): World<T> {
    RespawnCheck(WorldBeat(PulseFrom(w.(clock := killedAt), 0, now, killedAt), now), now)
  }

  // ---- Sessions coming and going, and the commands ----------------------------------------------------------

  ghost function Join<T>(w: World<T>, who: T, f: Fighter): World<T> {
    w.(slots := Registered(w.slots, who, f), count := w.count + Added(w.slots, who))
  }

  ghost function Leave<T>(w: World<T>, who: T): World<T> {
    w.(slots := Unregistered(w.slots, who), count := w.count - Dropped(w.slots, who))
  }

  predicate NamesRat(arg: string) {
    EqNoCase(arg, "rat") || EqNoCase(arg, "a glow-rat") || EqNoCase(arg, "glow-rat")
  }

  predicate CanAttack(f: Fighter, rat: Rat, arg: string) {
    !f.inCombat && f.room == ROOM_TUNNELS && rat.alive && NamesRat(arg)
  }

  function Engaged(f: Fighter, now: int): Fighter {
    f.(inCombat := true, target := true, position := "standing", lastTick := now + COMBAT_MS)
  }

  /** Replace the fighter of a registered session; nothing happens to a session that holds no slot. */
  ghost function Put<T>(w: World<T>, who: T, f: Fighter): World<T> {
    var k := SlotOf(w.slots, who);
    if k == |w.slots| then w else w.(slots := w.slots[k := Held(who, f)])
  }

  ghost function FighterOf<T>(w: World<T>, who: T): Fighter
    requires Holds(w.slots, who)
  {
    w.slots[SlotOf(w.slots, who)].body
  }

  // A command comes with its actor's own fighter, because an actor that found the table full has no slot.

  ghost function Attack<T>(w: World<T>, who: T, f: Fighter, arg: string, now: int): World<T> {
    if CanAttack(f, w.rat, arg) then Put(w, who, Engaged(f, now)).(clock := now) else w
  }

  function Rested(f: Fighter): Fighter { if f.inCombat then f else f.(position := "resting") }

  /** `hg_cmd_rest` also clears the heartbeat time, so that the next beat ticks the world at once. */
  ghost function Rest<T>(w: World<T>, who: T, f: Fighter): World<T> {
    if f.inCombat then w else Put(w, who, Rested(f)).(lastBeat := 0)
  }

  predicate CanMend(f: Fighter, p: Fighter) { p.hp < p.maxHp && f.hp > 5 }

  function Healed(f: Fighter): Fighter { f.(hp := if f.hp + 10 <= f.maxHp then f.hp + 10 else f.maxHp) }

  ghost function Mend<T>(w: World<T>, who: T, f: Fighter, patient: T): World<T>
    requires Holds(w.slots, patient)
  {
    var p := FighterOf(w, patient);
    if CanMend(f, p) then Put(Put(w, who, f.(hp := f.hp - 5)), patient, Healed(p)) else w
  }

  /** The waystation medic; `branded` says the session is ash-sworn or of the Front. */
  function Treated(f: Fighter, branded: bool): Fighter {
    if f.room != ROOM_WAYSTATION || f.inCombat || branded || f.hp >= f.maxHp then f else f.(hp := f.maxHp)
  }

  // ---- Runs ------------------------------------------------------------------------------------------------

  /** The commands that only rewrite their own session. `Ready` covers wield and remove. */
  datatype Own = Sleep | Stand | Move(room: int) | Recall | Ready(weapon: string) | Treat(branded: bool)

  function Adjusted(f: Fighter, c: Own): Fighter {
    match c
    case Sleep => if f.inCombat then f else f.(position := "resting")
    case Stand => f.(position := "standing")
    case Move(room) => f.(room := room)
    case Recall => f.(room := ROOM_NEXUS, position := "standing")
    case Ready(weapon) => f.(weapon := weapon)
    case Treat(branded) => Treated(f, branded)
  }

  /** Everything that reaches the combat state. `f` is the actor's own fighter, and `now` is what the clock reads. */
  datatype Event<T> =
    | Enter(who: T, f: Fighter)
    | Exit(who: T)
    | Heartbeat(now: int, killedAt: int)
    | AttackCmd(who: T, f: Fighter, arg: string, now: int)
    | RestCmd(who: T, f: Fighter)
    | OwnCmd(who: T, f: Fighter, cmd: Own)
    | MendCmd(who: T, f: Fighter, patient: T)

  function Boot<T>(): World<T> {
    World(seq(MAX_SESSIONS, i => Vacant), 0, Rat(RAT_MAX_HP, true, 0), 0, 0, 0, [])
  }

  /** The fighter an actor acts with: the one in its slot, or any at all if it has none. */
  ghost predicate Acts<T>(w: World<T>, who: T, f: Fighter) { Holds(w.slots, who) ==> f == FighterOf(w, who) }

  /** What the environment owes the world: a positive clock that never goes back, patients from the table, and a
      session entering play once, out of combat, with a live socket and hit points in range. */
  ghost predicate Enabled<T>(w: World<T>, e: Event<T>) {
    match e
    case Enter(who, f) => !Holds(w.slots, who) && !f.inCombat && !f.target && 0 < f.hp <= f.maxHp && f.wsi != 0
    case Exit(who) => true
    case Heartbeat(now, killedAt) => 0 < now && w.clock <= now <= killedAt
    case AttackCmd(who, f, _, now) => Acts(w, who, f) && w.clock <= now && 0 < now
    case MendCmd(who, f, patient) => who != patient && Acts(w, who, f) && Holds(w.slots, patient)
    case RestCmd(who, f) => Acts(w, who, f)
    case OwnCmd(who, f, _) => Acts(w, who, f)
  }

  ghost function Step<T>(w: World<T>, e: Event<T>): World<T>
    requires Enabled(w, e)
  {
    match e
    case Enter(who, f) => Join(w, who, f)
    case Exit(who) => Leave(w, who)
    case Heartbeat(now, killedAt) => Beat(w, now, killedAt)
    case AttackCmd(who, f, arg, now) => Attack(w, who, f, arg, now)
    case RestCmd(who, f) => Rest(w, who, f)
    case MendCmd(who, f, patient) => Mend(w, who, f, patient)
    case OwnCmd(who, f, cmd) => Put(w, who, Adjusted(f, cmd))
  }

  ghost predicate ValidRun<T>(w: World<T>, es: seq<Event<T>>)
    decreases |es|
  {
    es == [] || (Enabled(w, es[0]) && ValidRun(Step(w, es[0]), es[1..]))
  }

  ghost function Run<T>(w: World<T>, es: seq<Event<T>>): World<T>
    requires ValidRun(w, es)
    decreases |es|
  {
    if es == [] then w else Run(Step(w, es[0]), es[1..])
  }
}
