/** The event log against the fighters: what an entry says happened did happen to its fighter, and nothing else did.
    Nothing here names the functions that compute a round. */
module CombatAccounts {
  import opened CStrings
  import opened Registry
  import opened Combat
  import opened CombatSafety

  // ---- One pulse ---------------------------------------------------------------------------------------------

  /** What was added to the log. */
  function News<T>(before: seq<Entry<T>>, after: seq<Entry<T>>): seq<Entry<T>> {
    if |before| <= |after| then after[|before|..] else []
  }

  /** The fighter `g` is what the swing `e` makes of the fighter `f`: paid the award; short of the harm, or dead of it
      and whole again at the nexus. */
  predicate Bears<T>(f: Fighter, e: Entry<T>, g: Fighter)
    requires e.Swing?
  {
    && g.xp == f.xp + e.award && g.maxHp == f.maxHp && g.weapon == f.weapon && g.position == f.position
    && (if f.hp > e.harm then g.hp == f.hp - e.harm && g.room == f.room && g.poisoned == f.poisoned
        else g.hp == f.maxHp && g.room == 0 && !g.inCombat && !g.poisoned)
  }

  /** From a safe world, a pulse of a held slot fights exactly the round that is due. The log grows by one entry of
      the occupant then, and by nothing otherwise: a round against a dead rat ends the fight; a swing takes 8 from
      the rat with a shiv and 5 without, and either kills it, for 8 experience and no harm, or is answered by 4
      points of harm. Experience and hit points change by what the entry says, and no other slot changes. */
  lemma PulseIsHonest<T>(w: World<T>, i: nat, now: int)
    requires Safe(w) && i < |w.slots| && w.slots[i].Held? && 0 < now <= w.clock
    ensures var r := Pulse(w, i, now, w.clock);
            var f, news := w.slots[i].body, News(w.log, r.log);
            && |r.slots| == |w.slots| && r.slots[i].Held? && r.slots[i].who == w.slots[i].who
            && (forall k :: 0 <= k < |w.slots| && k != i ==> r.slots[k] == w.slots[k])
            && r.log == w.log + news && |news| == (if f.inCombat && f.lastTick <= now then 1 else 0)
            && (news == [] ==> r.slots[i].body.(wsi := f.wsi, lastTick := f.lastTick) == f && r.rat == w.rat)
    ensures var r := Pulse(w, i, now, w.clock);
            var f, g, news := w.slots[i].body, r.slots[i].body, News(w.log, r.log);
            news != [] ==>
              && !news[0].Respawn? && news[0].who == w.slots[i].who && news[0].at == now
              && (news[0].Gone? <==> !w.rat.alive)
              && (news[0].Gone? ==> r.rat == w.rat && g.xp == f.xp && g.hp == f.hp && g.room == f.room && !g.inCombat)
              && (news[0].Swing? ==>
                    && Bears(f, news[0], g)
                    && (var left := w.rat.hp - if f.weapon == "shiv" then 8 else 5;
                        if left <= 0
                        then !r.rat.alive && r.rat.hp == 0 && r.rat.diedAt == w.clock && news[0].award == 8
                             && news[0].harm == 0 && !g.inCombat
                        else r.rat == w.rat.(hp := left) && news[0].award == 0 && news[0].harm == 4
                             && (g.inCombat <==> f.hp > 4) && (g.inCombat ==> g.lastTick == now + 2000)))
  {
  }

  /** In any world, safe or not: a fighter with a timer of zero is armed for two seconds later and does not fight yet;
      one without a socket of its own takes the registry's; and one with neither is passed over. */
  lemma PulseArmsAndWires<T>(w: World<T>, i: nat, now: int, killedAt: int)
    requires i < |w.slots| && w.slots[i].Held? && w.slots[i].body.inCombat
    ensures var f, r := w.slots[i].body, Pulse(w, i, now, killedAt);
            var wsi := if f.wsi != 0 then f.wsi else f.slotWsi;
            && (wsi == 0 ==> r == w)
            && (wsi != 0 ==> r.slots[i].Held? && r.slots[i].body.wsi == wsi)
            && (wsi != 0 && f.lastTick == 0 ==>
                  r.slots[i].body == f.(wsi := wsi, lastTick := now + 2000) && r.log == w.log && r.rat == w.rat)
  {
  }

  /** A tick gives an unwired session the registry's socket, and heals nobody who has neither. */
  lemma TickWires(f: Fighter)
    ensures var g := Ticked(f);
            && g.wsi == (if f.wsi != 0 then f.wsi else f.slotWsi)
            && (g.wsi == 0 ==> g == f)
            && g.(hp := f.hp, wsi := f.wsi) == f
  {
  }

  // ---- Experience --------------------------------------------------------------------------------------------

  /** All a session has been paid, by the log. */
  function Awards<T(==)>(log: seq<Entry<T>>, who: T): int {
    if log == [] then 0
    else
      var e := log[|log| - 1];
      Awards(log[..|log| - 1], who) + if e.Swing? && e.who == who then e.award else 0
  }

  lemma AwardsAppend<T>(log: seq<Entry<T>>, e: Entry<T>, who: T)
    ensures Awards(log + [e], who) == Awards(log, who) + if e.Swing? && e.who == who then e.award else 0
  {
    assert (log + [e])[..|log|] == log;
  }

  /** Slot `k` has an occupant in both worlds, the same one, and the experience gained in between is the pay logged. */
  ghost predicate PaidAt<T>(w: World<T>, r: World<T>, k: nat)
    requires k < |w.slots| == |r.slots|
  {
    w.slots[k].Held? && r.slots[k].Held? && r.slots[k].who == w.slots[k].who &&
    r.slots[k].body.xp - w.slots[k].body.xp == Awards(r.log, w.slots[k].who) - Awards(w.log, w.slots[k].who)
  }

  lemma PulsePays<T>(w: World<T>, i: nat, now: int, k: nat)
    requires Safe(w) && i < |w.slots| && k < |w.slots| && w.slots[k].Held? && 0 < now <= w.clock
    ensures |Pulse(w, i, now, w.clock).slots| == |w.slots| && PaidAt(w, Pulse(w, i, now, w.clock), k)
  {
    if w.slots[i].Held? {
      PulseIsHonest(w, i, now);
      var r := Pulse(w, i, now, w.clock);
      var news := News(w.log, r.log);
      if news == [] { assert r.log == w.log; } else {
        assert news == [news[0]];
        AwardsAppend(w.log, news[0], w.slots[k].who);
      }
    }
  }

  lemma {:induction false} PulseFromPays<T>(w: World<T>, i: nat, now: int, k: nat)
    requires Safe(w) && i <= |w.slots| && k < |w.slots| && w.slots[k].Held? && 0 < now <= w.clock
    ensures PaidAt(w, PulseFrom(w, i, now, w.clock), k)
    decreases |w.slots| - i
  {
    if i < |w.slots| {
      PulseKeepsSafe(w, i, now);
      PulsePays(w, i, now, k);
      PulseFromPays(Pulse(w, i, now, w.clock), i + 1, now, k);
    }
  }

  lemma TickPays<T>(w: World<T>, now: int, k: nat)
    requires k < |w.slots| && w.slots[k].Held?
    ensures |WorldBeat(w, now).slots| == |w.slots| && PaidAt(w, WorldBeat(w, now), k)
  {
  }

  lemma RespawnPays<T>(w: World<T>, now: int, k: nat)
    requires k < |w.slots| && w.slots[k].Held?
    ensures |RespawnCheck(w, now).slots| == |w.slots| && PaidAt(w, RespawnCheck(w, now), k)
  {
    AwardsAppend(w.log, Respawn(now), w.slots[k].who);
  }

  /** A heartbeat pays every session exactly what it logs for it. */
  lemma BeatPays<T>(w: World<T>, now: int, killedAt: int, k: nat)
    requires Safe(w) && Enabled(w, Heartbeat(now, killedAt)) && k < |w.slots| && w.slots[k].Held?
    ensures |Beat(w, now, killedAt).slots| == |w.slots| && PaidAt(w, Beat(w, now, killedAt), k)
  {
    AdvanceKeepsSafe(w, killedAt);
    var w1 := w.(clock := killedAt);
    var w2 := PulseFrom(w1, 0, now, killedAt);
    PulseFromPays(w1, 0, now, k);
    TickPays(w2, now, k);
    RespawnPays(WorldBeat(w2, now), now, k);
  }

  /** A session in the table, in both worlds, with the experience gained in between. */
  ghost predicate Paid<T>(w: World<T>, r: World<T>, who: T) {
    Holds(w.slots, who) && Holds(r.slots, who) &&
    FighterOf(r, who).xp - FighterOf(w, who).xp == Awards(r.log, who) - Awards(w.log, who)
  }

  /** Without duplicates, a session is where it is seen. */
  lemma SeenThere<T>(w: World<T>, k: nat)
    requires Distinct(w.slots) && k < |w.slots| && w.slots[k].Held?
    ensures SlotOf(w.slots, w.slots[k].who) == k && Holds(w.slots, w.slots[k].who)
  {
    assert SlotOf(w.slots, w.slots[k].who) == k;
  }

  lemma PutPays<T>(w: World<T>, who: T, f: Fighter, other: T)
    requires Holds(w.slots, other) && (who == other ==> f.xp == FighterOf(w, other).xp)
    ensures Paid(w, Put(w, who, f), other)
  {
    if who == other {
      SlotOfStays(w.slots, SlotOf(w.slots, who), f, who);
      assert Put(w, who, f).slots[SlotOf(w.slots, who)].who == who;
    } else {
      OtherFighterStays(w, who, f, other);
    }
  }

  lemma MendPays<T>(w: World<T>, who: T, f: Fighter, patient: T, other: T)
    requires Enabled(w, MendCmd(who, f, patient)) && Holds(w.slots, other)
    ensures Paid(w, Mend(w, who, f, patient), other)
  {
    var w1 := Put(w, who, f.(hp := f.hp - 5));
    PutPays(w, who, f.(hp := f.hp - 5), other);
    OtherFighterStays(w, who, f.(hp := f.hp - 5), patient);
    PutPays(w1, patient, Healed(FighterOf(w, patient)), other);
  }

  lemma RegistryPays<T>(w: World<T>, r: World<T>, other: T)
    requires Distinct(w.slots) && Distinct(r.slots) && r.log == w.log && |r.slots| == |w.slots| && Holds(w.slots, other)
    requires r.slots[SlotOf(w.slots, other)] == w.slots[SlotOf(w.slots, other)]
    ensures Paid(w, r, other)
  {
    SeenThere(r, SlotOf(w.slots, other));
  }

  lemma StepPays<T>(w: World<T>, e: Event<T>, who: T)
    requires Safe(w) && Enabled(w, e) && Holds(w.slots, who) && e != Exit(who)
    ensures Paid(w, Step(w, e), who)
  {
    StepKeepsSafe(w, e);
    match e
    case Enter(other, f) => RegistryPays(w, Step(w, e), who);
    case Exit(other) => RegistryPays(w, Step(w, e), who);
    case Heartbeat(now, killedAt) =>
      BeatPays(w, now, killedAt, SlotOf(w.slots, who));
      SeenThere(Step(w, e), SlotOf(w.slots, who));
    case AttackCmd(other, f, arg, now) => PutPays(w, other, Engaged(f, now), who);
    case RestCmd(other, f) => PutPays(w, other, Rested(f), who);
    case MendCmd(other, f, patient) => MendPays(w, other, f, patient, who);
    case OwnCmd(other, f, cmd) => PutPays(w, other, Adjusted(f, cmd), who);
  }

  /** From its entry to its exit, over every run, the experience a session has gained is exactly the sum of the awards
      logged for it. */
  lemma {:induction false} RunPays<T>(w: World<T>, es: seq<Event<T>>, who: T)
    requires Safe(w) && ValidRun(w, es) && Holds(w.slots, who) && Exit(who) !in es
    ensures Paid(w, Run(w, es), who)
    decreases |es|
  {
    if es != [] {
      assert es[0] in es;
      StepPays(w, es[0], who);
      StepKeepsSafe(w, es[0]);
      RunPays(Step(w, es[0]), es[1..], who);
    }
  }

  /** So it is for a session that finds room on entering play: whatever happens until it leaves, it has the experience
      it came with and the awards logged since. */
  lemma PaidSinceEntry<T>(w: World<T>, who: T, f: Fighter, es: seq<Event<T>>)
    requires Safe(w) && Enabled(w, Enter(who, f)) && exists i :: 0 <= i < |w.slots| && w.slots[i].Vacant?
    requires ValidRun(Step(w, Enter(who, f)), es) && Exit(who) !in es
    ensures var r := Run(Step(w, Enter(who, f)), es);
            Holds(r.slots, who) && FighterOf(r, who).xp == f.xp + Awards(r.log, who) - Awards(w.log, who)
  {
    NewcomerSits(w.slots, who, f);
    var w' := Step(w, Enter(who, f));
    assert Holds(w'.slots, who) && FighterOf(w', who) == f;
    JoinKeepsSafe(w, who, f);
    RunPays(w', es, who);
  }

  // ---- Regeneration and the world tick -----------------------------------------------------------------------

  ghost function Ticks(f: Fighter, n: nat): Fighter { if n == 0 then f else Ticked(Ticks(f, n - 1)) }

  /** Resting for `n` ticks gives back two hit points for each, up to the maximum, and ticks never do anything else. */
  lemma {:induction false} RestingHeals(f: Fighter, n: nat)
    requires f.wsi != 0 && 0 < f.hp <= f.maxHp
    ensures var healed := f.hp + 2 * n;
            Ticks(f, n) == if f.inCombat || f.position != "resting" then f
                           else f.(hp := if healed <= f.maxHp then healed else f.maxHp)
  {
    if n > 0 { RestingHeals(f, n - 1); }
  }

  lemma {:induction false} PulseFromKeepsTicks<T>(w: World<T>, i: nat, now: int, killedAt: int)
    requires i <= |w.slots|
    ensures PulseFrom(w, i, now, killedAt).tick == w.tick && PulseFrom(w, i, now, killedAt).lastBeat == w.lastBeat
    decreases |w.slots| - i
  {
    if i < |w.slots| { PulseFromKeepsTicks(Pulse(w, i, now, killedAt), i + 1, now, killedAt); }
  }

  /** A heartbeat ticks the world exactly when two seconds have passed since the last tick. */
  lemma BeatTicksExactlyWhen<T>(w: World<T>, now: int, killedAt: int)
    ensures var r := Beat(w, now, killedAt);
            if now >= w.lastBeat + 2000 then r.tick == w.tick + 1 && r.lastBeat == now
            else r.tick == w.tick && r.lastBeat == w.lastBeat
  {
    PulseFromKeepsTicks(w.(clock := killedAt), 0, now, killedAt);
  }

  /** Over every run in which nobody rests, the ticks are at least two seconds apart. */
  lemma {:induction false} TicksAreSpaced<T>(w: World<T>, es: seq<Event<T>>)
    requires ValidRun(w, es) && forall i :: 0 <= i < |es| ==> !es[i].RestCmd?
    ensures var r := Run(w, es); r.tick >= w.tick && r.lastBeat - w.lastBeat >= 2000 * (r.tick - w.tick)
    decreases |es|
  {
    if es != [] {
      if es[0].Heartbeat? { BeatTicksExactlyWhen(w, es[0].now, es[0].killedAt); }
      TicksAreSpaced(Step(w, es[0]), es[1..]);
    }
  }

  // ---- Commands ----------------------------------------------------------------------------------------------

  /** The names a player can attack the rat by. */
  const RAT_NAMES: set<string> := {"rat", "a glow-rat", "glow-rat"}

  /** An attack puts an idle registered session into combat exactly when it stands in the tunnels, the rat lives and
      the word, in any case, is one of its names; the first swing comes two seconds later. */
  lemma AttackEngagesExactlyWhen<T>(w: World<T>, who: T, arg: string, now: int)
    requires Holds(w.slots, who) && !FighterOf(w, who).inCombat
    ensures var f := FighterOf(w, who); var r := Attack(w, who, f, arg, now);
            && Holds(r.slots, who)
            && (FighterOf(r, who).inCombat <==> f.room == 6 && w.rat.alive && Lower(arg) in RAT_NAMES)
            && (FighterOf(r, who).inCombat ==>
                  FighterOf(r, who) ==
                  f.(inCombat := true, target := true, lastTick := now + 2000, position := "standing"))
            && (!FighterOf(r, who).inCombat ==> r == w)
  {
    var f := FighterOf(w, who);
    assert Lower("rat") == "rat" && Lower("a glow-rat") == "a glow-rat" && Lower("glow-rat") == "glow-rat";
    if CanAttack(f, w.rat, arg) {
      SlotOfStays(w.slots, SlotOf(w.slots, who), Engaged(f, now), who);
      assert Put(w, who, Engaged(f, now)).slots[SlotOf(w.slots, who)].who == who;
    }
  }

  /** Resting lays an idle session down and makes the next heartbeat tick; in a fight it does nothing. */
  lemma RestExactlyWhen<T>(w: World<T>, who: T, now: int, killedAt: int)
    requires Holds(w.slots, who) && 2000 <= now
    ensures var f := FighterOf(w, who); var r := Rest(w, who, f);
            if f.inCombat then r == w
            else Holds(r.slots, who) && FighterOf(r, who) == f.(position := "resting")
                 && Beat(r, now, killedAt).tick == w.tick + 1
  {
    var f := FighterOf(w, who);
    if !f.inCombat {
      SlotOfStays(w.slots, SlotOf(w.slots, who), Rested(f), who);
      assert Put(w, who, Rested(f)).slots[SlotOf(w.slots, who)].who == who;
      BeatTicksExactlyWhen(Rest(w, who, f), now, killedAt);
    }
  }

  /** A mend moves hit points exactly when the patient is hurt and the healer has more than five: five leave the
      healer and the patient gets ten or what was missing. */
  lemma MendMoves<T>(w: World<T>, who: T, patient: T)
    requires Holds(w.slots, who) && Holds(w.slots, patient) && who != patient
    ensures var f, p := FighterOf(w, who), FighterOf(w, patient);
            var r := Mend(w, who, f, patient);
            && Holds(r.slots, who) && Holds(r.slots, patient)
            && (if p.hp < p.maxHp && f.hp > 5
                then FighterOf(r, who) == f.(hp := f.hp - 5)
                     && FighterOf(r, patient) == p.(hp := if p.maxHp - p.hp < 10 then p.maxHp else p.hp + 10)
                else r == w)
  {
    var f, p := FighterOf(w, who), FighterOf(w, patient);
    if CanMend(f, p) {
      var f' := f.(hp := f.hp - 5);
      var w1 := Put(w, who, f');
      SlotOfStays(w.slots, SlotOf(w.slots, who), f', who);
      assert w1.slots[SlotOf(w.slots, who)].who == who;
      OtherFighterStays(w, who, f', patient);
      OtherFighterStays(w1, patient, Healed(p), who);
      SlotOfStays(w1.slots, SlotOf(w1.slots, patient), Healed(p), patient);
      assert Put(w1, patient, Healed(p)).slots[SlotOf(w1.slots, patient)].who == patient;
    }
  }

  /** The medic heals exactly the wounded at the waystation who are idle and unbranded, and heals them fully. */
  lemma TreatHealsExactlyWhen(f: Fighter, branded: bool)
    requires f.hp <= f.maxHp
    ensures var g := Treated(f, branded);
            && g.(hp := f.hp) == f
            && (g.hp != f.hp <==> f.room == 16 && !f.inCombat && !branded && f.hp < f.maxHp)
            && (g.hp != f.hp ==> g.hp == f.maxHp)
  {
  }
}
