/** The combat clock and the session registry of `asm/combat.asm`, updated in place. Every method's new state is
    tied to the functions of `Combat`. */
module CombatWorld {
  import opened Sessions
  import opened Registry
  import opened Combat

  class Arena {
    const table: array<Session?>
    const wsis: array<nat>
    var sessionCount: int
    var ratHp: int
    var ratAlive: bool
    var ratDiedAt: int
    var lastHeartbeat: int
    var worldTick: int
    ghost var clock: int
    ghost var log: seq<Entry<Session>>

    /** `hg_world_boot`. */
    constructor ()
      ensures fresh(table) && fresh(wsis) && Shape() && View() == Boot()
    {
      table := new Session?[MAX_SESSIONS](_ => null);
      wsis := new nat[MAX_SESSIONS](_ => 0);
      sessionCount, ratHp, ratAlive, ratDiedAt := 0, RAT_MAX_HP, true, 0;
      lastHeartbeat, worldTick := 0, 0;
      clock, log := 0, [];
      new;
      assert View().slots == Boot<Session>().slots;
    }

    ghost predicate Sized() { table.Length == MAX_SESSIONS == wsis.Length }

    /** The table without duplicates, as every reachable state has it. */
    ghost predicate Shape()
      reads table
    {
      Sized() && forall i, j :: 0 <= i < j < table.Length && table[i] != null ==> table[i] != table[j]
    }

    ghost function Members(): set<Session>
      reads table
    {
      set s: Session | s in table[..]
    }

    ghost function Fight(s: Session, slotWsi: nat): Fighter
      reads s`hp, s`maxHp, s`xp, s`room, s`inCombat, s`target, s`lastTick, s`position, s`weapon, s`poisoned, s`wsi
    {
      Fighter(s.hp, s.maxHp, s.xp, s.room, s.inCombat, s.target, s.lastTick, s.position, s.weapon, s.poisoned, s.wsi,
              slotWsi)
    }

    ghost function RatView(): Rat
      reads this`ratHp, this`ratAlive, this`ratDiedAt
    {
      Rat(ratHp, ratAlive, ratDiedAt)
    }

    ghost function SlotView(i: nat): Slot<Session, Fighter>
      requires i < table.Length == wsis.Length
      reads table, wsis, Members()
    {
      if table[i] == null then Vacant
      else
        var s: Session := table[i];
        Held(s, Fight(s, wsis[i]))
    }

    ghost function View(): World<Session>
      requires Shape()
      reads this, table, wsis, Members()
    {
      World(seq(table.Length, i requires 0 <= i < table.Length reads table, wsis, Members() => SlotView(i)),
            sessionCount, RatView(), lastHeartbeat, worldTick, clock, log)
    }

    /** The registry alone: who sits where, with which socket. */
    ghost function Handles(): seq<Slot<Session, nat>>
      requires Sized()
      reads table, wsis
    {
      seq(table.Length, i requires 0 <= i < table.Length == wsis.Length reads table, wsis =>
        if table[i] == null then Vacant
        else
          var s: Session := table[i];
          Held(s, wsis[i]))
    }

    /** `player_died`: whole again at the nexus, out of the fight. */
    method PlayerDied(s: Session, ghost slotWsi: nat)
      modifies s`hp, s`room, s`inCombat, s`target, s`poisoned
      ensures Fight(s, slotWsi) == Died(old(Fight(s, slotWsi)))
    {
      s.hp, s.room := s.maxHp, ROOM_NEXUS;
      s.inCombat, s.target, s.poisoned := false, false, false;
    }

    /** One exchange with the rat (`combat_round`, `player_damage`). */
    method CombatRound(s: Session, killedAt: int, ghost now: int, ghost slotWsi: nat)
      modifies this`ratHp, this`ratAlive, this`ratDiedAt, this`log
      modifies s`hp, s`xp, s`room, s`inCombat, s`target, s`poisoned
      ensures Fight(s, slotWsi) == RoundFighter(old(Fight(s, slotWsi)), old(RatView()))
      ensures RatView() == RoundRat(old(Fight(s, slotWsi)), old(RatView()), killedAt)
      ensures log == old(log) + RoundLog(s, old(Fight(s, slotWsi)), old(RatView()), now)
    {
      if !s.target {
        return;
      }
      if !ratAlive {
        s.inCombat, s.target := false, false;
        log := log + [Gone(s, now)];
        return;
      }
      var dmg := 5;
      if s.weapon == "shiv" {
        dmg := dmg + 3;
      }
      ratHp := ratHp - dmg;
      if ratHp < 0 {
        ratHp := 0;
      }
      var harm := 0;
      if ratHp > 0 {
        harm := RAT_DAMAGE;
        s.hp := s.hp - harm;
      }
      if ratHp <= 0 {
        ratAlive, ratDiedAt := false, killedAt;
        s.inCombat, s.target := false, false;
        s.xp := s.xp + KILL_XP;
        log := log + [Swing(s, now, 0, KILL_XP)];
      } else {
        if s.hp <= 0 {
          PlayerDied(s, slotWsi);
        }
        log := log + [Swing(s, now, harm, 0)];
      }
    }

    /** Resolve a session's socket handle: its own, or the registry's copy (0 if there is none). */
    method FindWsi(s: Session) returns (w: nat)
      requires Shape()
      ensures forall i :: 0 <= i < table.Length && table[i] == s ==> w == (if s.wsi != 0 then s.wsi else wsis[i])
      ensures s !in table[..] ==> w == s.wsi
    {
      w := s.wsi;
      if w == 0 {
        var i := 0;
        while i < MAX_SESSIONS && table[i] != s
          invariant 0 <= i <= MAX_SESSIONS && forall j :: 0 <= j < i ==> table[j] != s
        {
          i := i + 1;
        }
        if i < MAX_SESSIONS {
          w := wsis[i];
        }
      }
    }

    /** `hg_session_pulse`: the sole owner of the combat cadence. */
    method SessionPulse(s: Session, now: int, killedAt: int, ghost i: nat)
      requires Shape() && i < MAX_SESSIONS && table[i] == s
      modifies this`ratHp, this`ratAlive, this`ratDiedAt, this`log
      modifies s`hp, s`xp, s`room, s`inCombat, s`target, s`poisoned, s`wsi, s`lastTick
      ensures View() == Pulse(old(View()), i, now, killedAt)
    {
      ghost var before := View();
      assert before.slots[i] == SlotView(i);
      if s.inCombat {
        var w := FindWsi(s);
        if w != 0 {
          s.wsi := w;
          Cadence(s, now, killedAt, wsis[i]);
        }
      }
      forall k | 0 <= k < MAX_SESSIONS && k != i ensures SlotView(k) == before.slots[k] {
        assert before.slots[k] == old(SlotView(k));
      }
      assert View().slots == before.slots[i := SlotView(i)];
    }

    /** Arm the first swing, wait for it, or fight one round and re-arm. */
    method Cadence(s: Session, now: int, killedAt: int, ghost slotWsi: nat)
      modifies this`ratHp, this`ratAlive, this`ratDiedAt, this`log
      modifies s`hp, s`xp, s`room, s`inCombat, s`target, s`poisoned, s`lastTick
      ensures var f, rat := old(Fight(s, slotWsi)), old(RatView()); var armed := f.(lastTick := now + COMBAT_MS);
              if f.lastTick == 0 then Fight(s, slotWsi) == armed && RatView() == rat && log == old(log)
              else if now < f.lastTick then Fight(s, slotWsi) == f && RatView() == rat && log == old(log)
              else Fight(s, slotWsi) == RoundFighter(armed, rat) && RatView() == RoundRat(armed, rat, killedAt)
                   && log == old(log) + RoundLog(s, armed, rat, now)
    {
      if s.lastTick == 0 {
        s.lastTick := now + COMBAT_MS;
      } else if now >= s.lastTick {
        s.lastTick := now + COMBAT_MS;
        CombatRound(s, killedAt, now, slotWsi);
      }
    }

    /** `tick_session`: rest regeneration. */
    method TickSession(s: Session, ghost i: nat)
      requires Shape() && i < MAX_SESSIONS && table[i] == s
      modifies s`hp, s`wsi
      ensures Fight(s, wsis[i]) == Ticked(old(Fight(s, wsis[i])))
    {
      var w := FindWsi(s);
      if w == 0 {
        return;
      }
      s.wsi := w;
      if s.inCombat {
        return;
      }
      if s.position == "resting" && s.hp < s.maxHp {
        s.hp := s.hp + 2;
        if s.hp > s.maxHp {
          s.hp := s.maxHp;
        }
      }
    }

    /** The first loop of the heartbeat: pulse whoever is fighting. */
    method PulseAll(now: int, killedAt: int)
      requires Shape()
      modifies this`ratHp, this`ratAlive, this`ratDiedAt, this`log
      modifies Members()`hp, Members()`xp, Members()`room, Members()`inCombat, Members()`target
      modifies Members()`poisoned, Members()`wsi, Members()`lastTick
      ensures View() == PulseFrom(old(View()), 0, now, killedAt)
    {
      var i := 0;
      while i < MAX_SESSIONS
        invariant 0 <= i <= MAX_SESSIONS
        invariant PulseFrom(View(), i, now, killedAt) == PulseFrom(old(View()), 0, now, killedAt)
      {
        assert View().slots[i] == SlotView(i);
        if table[i] != null && table[i].inCombat {
          SessionPulse(table[i], now, killedAt, i);
        }
        i := i + 1;
      }
    }

    /** The second loop: tick every session. */
    method TickEverySession()
      requires Shape()
      modifies Members()`hp, Members()`wsi
      ensures View() == old(View()).(slots := TickAll(old(View()).slots))
    {
      ghost var before := View().slots;
      var i := 0;
      while i < MAX_SESSIONS
        invariant 0 <= i <= MAX_SESSIONS
        invariant forall k :: 0 <= k < MAX_SESSIONS ==>
          SlotView(k) == if k < i then TickAll(before)[k] else before[k]
      {
        if table[i] != null {
          TickSession(table[i], i);
        }
        i := i + 1;
      }
      assert View().slots == TickAll(before);
    }

    /** Pulse every slot, tick the world when a beat is due, then look at the rat's respawn timer. */
    method HgHeartbeat(now: int, killedAt: int)
      requires Shape()
      modifies this`ratHp, this`ratAlive, this`ratDiedAt, this`log, this`clock, this`lastHeartbeat, this`worldTick
      modifies Members()`hp, Members()`xp, Members()`room, Members()`inCombat, Members()`target
      modifies Members()`poisoned, Members()`wsi, Members()`lastTick
      ensures View() == Beat(old(View()), now, killedAt)
    {
      ghost var start := View();
      clock := killedAt;
      assert View() == start.(clock := killedAt);
      PulseAll(now, killedAt);
      WorldGate(now);
      RespawnOnly(now);
    }

    /** `.world_gate`: at most one beat of the world per period. */
    method WorldGate(now: int)
      requires Shape()
      modifies this`lastHeartbeat, this`worldTick, Members()`hp, Members()`wsi
      ensures View() == WorldBeat(old(View()), now)
    {
      ghost var before := View();
      if now >= lastHeartbeat + HEARTBEAT_MS {
        lastHeartbeat := now;
        worldTick := worldTick + 1;
        assert View() == before.(lastBeat := now, tick := before.tick + 1);
        TickEverySession();
      }
    }

    /** `.respawn_only`. */
    method RespawnOnly(now: int)
      requires Shape()
      modifies this`ratHp, this`ratAlive, this`ratDiedAt, this`log
      ensures View() == RespawnCheck(old(View()), now)
    {
      ghost var before := View();
      if !ratAlive && ratDiedAt != 0 && now >= ratDiedAt + RESPAWN_MS {
        ratHp, ratAlive, ratDiedAt := RAT_MAX_HP, true, 0;
        log := log + [Respawn(now)];
        assert View().slots == before.slots;
      }
    }

    // ---- The registry ----------------------------------------------------------------------------------------

    /** The loop stops at the first empty slot or at the session itself, whichever comes first. For a session
        that is not in the table yet this is the step `Join` of the combat world. */
    method SessionRegister(s: Session, wsi: nat)
      requires Sized()
      modifies this`sessionCount, table, wsis, s`wsi
      ensures s.wsi == wsi && Handles() == Registered(old(Handles()), s, wsi)
      ensures sessionCount == old(sessionCount) + Added(old(Handles()), s)
      ensures old(Shape() && s !in Members()) ==> Shape() && View() == Join(old(View()), s, Fight(s, wsi))
    {
      var i := TakeSlot(s, wsi);
      if old(Shape() && s !in Members()) {
        forall k | 0 <= k < MAX_SESSIONS && k != i ensures SlotView(k) == old(View()).slots[k] {
          assert old(View()).slots[k] == old(SlotView(k));
        }
        JoinShows(s, wsi, i, old(View()).slots, old(Handles()));
      }
    }

    /** What one new slot looks like from outside. */
    lemma JoinShows(s: Session, wsi: nat, i: nat, before: seq<Slot<Session, Fighter>>, was: seq<Slot<Session, nat>>)
      requires Shape() && |before| == MAX_SESSIONS == |was| && i == Landing(was, s)
      requires forall k :: 0 <= k < MAX_SESSIONS ==>
        before[k].Held? == was[k].Held? && (before[k].Held? ==> before[k].who == was[k].who)
      requires forall k :: 0 <= k < MAX_SESSIONS && k != i ==> SlotView(k) == before[k]
      requires i < MAX_SESSIONS ==> table[i] == s && wsis[i] == wsi
      ensures View().slots == Registered(before, s, Fight(s, wsi))
    {
      LandingAgrees(before, was, s, 0);
    }

    method TakeSlot(s: Session, wsi: nat) returns (i: nat)
      requires Sized()
      modifies this`sessionCount, table, wsis, s`wsi
      ensures s.wsi == wsi && Handles() == Registered(old(Handles()), s, wsi) && i == Landing(old(Handles()), s)
      ensures table[..] == if i < MAX_SESSIONS then old(table[..])[i := s] else old(table[..])
      ensures wsis[..] == if i < MAX_SESSIONS then old(wsis[..])[i := wsi] else old(wsis[..])
      ensures sessionCount == old(sessionCount) + Added(old(Handles()), s)
    {
      s.wsi := wsi;
      i := FindSlot(s);
      if i < MAX_SESSIONS {
        if table[i] == null {
          table[i] := s;
          sessionCount := sessionCount + 1;
        }
        wsis[i] := wsi;
      }
      assert Handles() == Registered(old(Handles()), s, wsi);
    }

    /** `.find_slot`. */
    method FindSlot(s: Session) returns (i: nat)
      requires Sized()
      ensures i == Landing(Handles(), s)
    {
      i := 0;
      while i < MAX_SESSIONS && table[i] != null && table[i] != s
        invariant 0 <= i <= MAX_SESSIONS
        invariant Landing(Handles(), s) == Landing(Handles(), s, i)
      {
        i := i + 1;
      }
    }

    method SessionUnregister(s: Session)
      requires Sized()
      modifies this`sessionCount, table, wsis, s`wsi
      ensures s.wsi == 0 && Handles() == Unregistered(old(Handles()), s)
      ensures sessionCount == old(sessionCount) - Dropped(old(Handles()), s)
      ensures old(Shape()) ==> Shape() && s !in Members() && View() == Leave(old(View()), s)
    {
      var i := ClearSlot(s);
      if old(Shape()) {
        forall k | 0 <= k < MAX_SESSIONS && k != i ensures SlotView(k) == old(View()).slots[k] {
          assert old(View()).slots[k] == old(SlotView(k));
        }
        LeaveShows(s, i, old(View()).slots, old(Handles()));
      }
    }

    /** What one cleared slot looks like from outside. */
    lemma LeaveShows(s: Session, i: nat, before: seq<Slot<Session, Fighter>>, was: seq<Slot<Session, nat>>)
      requires Shape() && |before| == MAX_SESSIONS == |was| && i == SlotOf(was, s)
      requires forall k :: 0 <= k < MAX_SESSIONS ==>
        before[k].Held? == was[k].Held? && (before[k].Held? ==> before[k].who == was[k].who)
      requires forall k :: 0 <= k < MAX_SESSIONS && k != i ==> SlotView(k) == before[k]
      requires i < MAX_SESSIONS ==> table[i] == null
      ensures View().slots == Unregistered(before, s)
    {
      LandingAgrees(before, was, s, 0);
    }

    method ClearSlot(s: Session) returns (i: nat)
      requires Sized()
      modifies this`sessionCount, table, wsis, s`wsi
      ensures s.wsi == 0 && Handles() == Unregistered(old(Handles()), s) && i == SlotOf(old(Handles()), s)
      ensures table[..] == if i < MAX_SESSIONS then old(table[..])[i := null] else old(table[..])
      ensures wsis[..] == if i < MAX_SESSIONS then old(wsis[..])[i := 0] else old(wsis[..])
      ensures forall j :: 0 <= j < i ==> old(table[..])[j] != s
      ensures i < MAX_SESSIONS ==> old(table[..])[i] == s
      ensures sessionCount == old(sessionCount) - Dropped(old(Handles()), s)
    {
      ghost var before := Handles();
      s.wsi := 0;
      i := 0;
      while i < MAX_SESSIONS && table[i] != s
        invariant 0 <= i <= MAX_SESSIONS && Handles() == before
        invariant SlotOf(before, s) == SlotOf(before, s, i)
        invariant forall j :: 0 <= j < i ==> table[j] != s
      {
        i := i + 1;
      }
      if i < MAX_SESSIONS {
        table[i] := null;
        wsis[i] := 0;
        sessionCount := sessionCount - 1;
      }
      assert Handles() == Unregistered(before, s);
    }

    /** Two views of one table agree on where a search ends. */
    lemma {:induction false} LandingAgrees<P, Q>(a: seq<Slot<Session, P>>, b: seq<Slot<Session, Q>>, s: Session, i: nat)
      requires |a| == |b| && i <= |a|
      requires forall k :: 0 <= k < |a| ==> a[k].Held? == b[k].Held? && (a[k].Held? ==> a[k].who == b[k].who)
      ensures Landing(a, s, i) == Landing(b, s, i) && SlotOf(a, s, i) == SlotOf(b, s, i)
      decreases |a| - i
    {
      if i < |a| { LandingAgrees(a, b, s, i + 1); }
    }

    // ---- Commands --------------------------------------------------------------------------------------------

    lemma SlotOfMember(s: Session, i: nat)
      requires Shape() && i < MAX_SESSIONS && table[i] == s
      ensures SlotOf(View().slots, s) == i && Holds(View().slots, s)
      ensures FighterOf(View(), s) == Fight(s, wsis[i])
    {
      var slots := View().slots;
      assert slots[i] == SlotView(i);
      forall k | 0 <= k < i ensures slots[k].Held? ==> slots[k].who != s { assert slots[k] == SlotView(k); }
    }

    /** The slot of a session, or the table size for one that found the table full. */
    ghost function Seat(s: Session): (k: nat)
      requires Sized()
      reads table
      ensures k <= MAX_SESSIONS && (if k < MAX_SESSIONS then table[k] == s else s !in table[..])
    {
      if s in table[..] then var i: nat :| i < MAX_SESSIONS && table[i] == s; i else MAX_SESSIONS
    }

    /** A session as the actor of a command. */
    ghost function Actor(s: Session): Fighter
      requires Sized()
      reads table, wsis
      reads s`hp, s`maxHp, s`xp, s`room, s`inCombat, s`target, s`lastTick, s`position, s`weapon, s`poisoned, s`wsi
    {
      Fight(s, if Seat(s) < MAX_SESSIONS then wsis[Seat(s)] else 0)
    }

    lemma ActorActs(s: Session)
      requires Shape()
      ensures SlotOf(View().slots, s) == Seat(s) && Acts(View(), s, Actor(s))
      ensures Holds(View().slots, s) <==> Seat(s) < MAX_SESSIONS
    {
      if Seat(s) < MAX_SESSIONS {
        SlotOfMember(s, Seat(s));
      } else {
        forall k | 0 <= k < MAX_SESSIONS ensures View().slots[k].Held? ==> View().slots[k].who != s {
          assert View().slots[k] == SlotView(k) && table[k] in table[..];
        }
      }
    }

    /** The table after a command that changed only its actor. */
    lemma ActorMoved(s: Session, before: seq<Slot<Session, Fighter>>)
      requires Shape() && |before| == MAX_SESSIONS
      requires forall k :: 0 <= k < MAX_SESSIONS && k != Seat(s) ==> SlotView(k) == before[k]
      ensures View().slots == if Seat(s) < MAX_SESSIONS then before[Seat(s) := Held(s, Actor(s))] else before
    {
    }

    /** Into the fight, with `hg_combat_arm`: the first swing one period from now. */
    method Engage(s: Session, now: int)
      requires Shape()
      modifies this`clock, s`inCombat, s`target, s`position, s`lastTick
      ensures Actor(s) == Engaged(old(Actor(s)), now)
      ensures View() == Put(old(View()), s, Engaged(old(Actor(s)), now)).(clock := now)
    {
      ActorActs(s);
      ghost var before := View();
      s.inCombat, s.target, s.position := true, true, "standing";
      s.lastTick := now + COMBAT_MS;
      clock := now;
      ActorMoved(s, before.slots);
    }

    /** `hg_cmd_attack`. */
    method CmdAttack(s: Session, arg: string, now: int)
      requires Shape()
      modifies this`clock, s`inCombat, s`target, s`position, s`lastTick
      ensures Acts(old(View()), s, old(Actor(s))) && View() == Attack(old(View()), s, old(Actor(s)), arg, now)
      ensures Actor(s) == if CanAttack(old(Actor(s)), RatView(), arg) then Engaged(old(Actor(s)), now)
                          else old(Actor(s))
    {
      ActorActs(s);
      if !s.inCombat && s.room == ROOM_TUNNELS && ratAlive && NamesRat(arg) {
        Engage(s, now);
      }
    }

    method CmdRest(s: Session)
      requires Shape()
      modifies this`lastHeartbeat, s`position
      ensures Acts(old(View()), s, old(Actor(s))) && View() == Rest(old(View()), s, old(Actor(s)))
      ensures Actor(s) == Rested(old(Actor(s)))
    {
      ActorActs(s);
      ghost var before := View();
      if !s.inCombat {
        s.position := "resting";
        ActorMoved(s, before.slots);
        lastHeartbeat := 0;
      }
    }

    /** `hg_cmd_mend`, once the patient has been found in the table: five of the healer's hit points for ten of the
        patient's. */
    method CmdMend(s: Session, patient: Session)
      requires Shape() && patient in table[..] && s != patient
      modifies s`hp, patient`hp
      ensures Acts(old(View()), s, old(Actor(s))) && Holds(old(View()).slots, patient)
      ensures View() == Mend(old(View()), s, old(Actor(s)), patient)
      ensures s.hp == old(s.hp) - if CanMend(old(Actor(s)), old(Actor(patient))) then 5 else 0
    {
      ActorActs(s);
      ActorActs(patient);
      ghost var before, i, j := View(), Seat(s), Seat(patient);
      if patient.hp < patient.maxHp && s.hp > 5 {
        s.hp := s.hp - 5;
        var hp := patient.hp + 10;
        if hp > patient.maxHp {
          hp := patient.maxHp;
        }
        patient.hp := hp;
        if i < MAX_SESSIONS {
          SlotOfStays(before.slots, i, Actor(s), patient);
        }
        assert View().slots == (if i < MAX_SESSIONS then before.slots[i := Held(s, Actor(s))] else before.slots)
                               [j := Held(patient, Actor(patient))];
      }
    }

    /** `hg_cmd_treat`: the waystation medic makes whole whoever is neither fighting nor branded. */
    method CmdTreat(s: Session)
      requires Shape()
      modifies s`hp
      ensures Acts(old(View()), s, old(Actor(s)))
      ensures var e := OwnCmd(s, old(Actor(s)), Treat(s.faction == "front" || s.ashsworn));
              Enabled(old(View()), e) && View() == Step(old(View()), e)
      ensures Actor(s) == Treated(old(Actor(s)), s.faction == "front" || s.ashsworn)
    {
      ActorActs(s);
      ghost var before := View();
      if s.room == ROOM_WAYSTATION && !s.inCombat && s.faction != "front" && !s.ashsworn && s.hp < s.maxHp {
        s.hp := s.maxHp;
      }
      ActorMoved(s, before.slots);
    }
  }
}
