/** Safety of the combat clock over every run: spacing of rounds, the life of the rat, hit points, and the
    absence of fights that outlive their rat. */
module CombatSafety {
  import opened Registry
  import opened Combat

  // ---- Reading the event log ---------------------------------------------------------------------------------

  predicate IsRound<T>(e: Entry<T>) { e.Swing? || e.Gone? }

  /** Two combat rounds of one session are at least one combat period apart. */
  ghost predicate Spaced<T>(log: seq<Entry<T>>) {
    forall i, j :: 0 <= i < j < |log| && IsRound(log[i]) && IsRound(log[j]) && log[i].who == log[j].who ==>
      log[j].at - log[i].at >= 2000
  }

  datatype Tally = Tally(swings: nat, harm: int, award: int)

  /** What the fighters together have done to, suffered from, and been paid for the rat's current life. */
  function ThisLife<T>(log: seq<Entry<T>>): Tally {
    if log == [] then Tally(0, 0, 0)
    else match log[|log| - 1]
      case Respawn(_) => Tally(0, 0, 0)
      case Gone(_, _) => ThisLife(log[..|log| - 1])
      case Swing(_, _, harm, award) =>
        var t := ThisLife(log[..|log| - 1]);
        Tally(t.swings + 1, t.harm + harm, t.award + award)
  }

  // ---- The invariant -----------------------------------------------------------------------------------------

  ghost predicate FighterOk(f: Fighter, rat: Rat, clock: int) {
    && f.wsi != 0
    && 0 < f.hp <= f.maxHp
    && (f.target <==> f.inCombat)
    && (f.inCombat ==> 0 < f.lastTick <= clock + COMBAT_MS)
    && (f.inCombat && !rat.alive ==> f.lastTick <= rat.diedAt + COMBAT_MS)
  }

  /** The next round of a fighting session is due a whole period after every round it has had. */
  ghost predicate WaitsFor<T>(who: T, f: Fighter, log: seq<Entry<T>>) {
    f.inCombat ==>
      forall j :: 0 <= j < |log| && IsRound(log[j]) && log[j].who == who ==> f.lastTick >= log[j].at + COMBAT_MS
  }

  predicate RatOk(rat: Rat, clock: int) {
    if rat.alive then 1 <= rat.hp <= RAT_MAX_HP && rat.diedAt == 0 else rat.hp == 0 && 0 < rat.diedAt <= clock
  }

  predicate LifeOk(rat: Rat, t: Tally) {
    if rat.alive then rat.hp + 5 * t.swings <= RAT_MAX_HP && t.harm == RAT_DAMAGE * t.swings && t.award == 0
    else t.swings <= 3 && t.harm <= 2 * RAT_DAMAGE && t.award == KILL_XP
  }

  ghost predicate TableOk<T>(w: World<T>) {
    |w.slots| == MAX_SESSIONS && Distinct(w.slots) && w.count == Occupied(w.slots)
  }

  ghost predicate FightersOk<T>(w: World<T>) {
    forall i :: 0 <= i < |w.slots| && w.slots[i].Held? ==>
      FighterOk(w.slots[i].body, w.rat, w.clock) && WaitsFor(w.slots[i].who, w.slots[i].body, w.log)
  }

  ghost predicate LogOk<T>(w: World<T>) {
    Spaced(w.log) && forall j :: 0 <= j < |w.log| ==> w.log[j].at <= w.clock
  }

  ghost predicate Safe<T>(w: World<T>) {
    TableOk(w) && FightersOk(w) && LogOk(w) && RatOk(w.rat, w.clock) && LifeOk(w.rat, ThisLife(w.log)) && 0 <= w.clock
  }

  // ---- Commands ----------------------------------------------------------------------------------------------

  /** Rewriting the fighter in a slot keeps the world safe when the new fighter is in order. */
  lemma PutKeepsSafe<T>(w: World<T>, k: nat, f: Fighter)
    requires Safe(w) && k < |w.slots| && w.slots[k].Held?
    requires FighterOk(f, w.rat, w.clock) && WaitsFor(w.slots[k].who, f, w.log)
    ensures Safe(w.(slots := w.slots[k := Held(w.slots[k].who, f)]))
  {
    OccupiedAfterWrite(w.slots, k, Held(w.slots[k].who, f));
  }

  lemma AdvanceKeepsSafe<T>(w: World<T>, now: int)
    requires Safe(w) && w.clock <= now
    ensures Safe(w.(clock := now))
  {
  }

  lemma JoinKeepsSafe<T>(w: World<T>, who: T, f: Fighter)
    requires Safe(w) && Enabled(w, Enter(who, f))
    ensures Safe(Join(w, who, f))
  {
    RegisterKeepsDistinctExactlyWhen(w.slots, who, f);
    RegisterCounts(w.slots, who, f);
  }

  lemma LeaveKeepsSafe<T>(w: World<T>, who: T)
    requires Safe(w)
    ensures Safe(Leave(w, who)) && !Holds(Leave(w, who).slots, who)
  {
    UnregisterRemoves(w.slots, who);
    if SlotOf(w.slots, who) < |w.slots| { assert Holds(w.slots, who); }
  }

  /** The same for a session by name; one without a slot has nothing to rewrite. */
  lemma PutByNameKeepsSafe<T>(w: World<T>, who: T, f: Fighter)
    requires Safe(w)
    requires Holds(w.slots, who) ==> FighterOk(f, w.rat, w.clock) && WaitsFor(who, f, w.log)
    ensures Safe(Put(w, who, f))
    ensures forall other :: other != who && Holds(w.slots, other) ==>
      Holds(Put(w, who, f).slots, other) && FighterOf(Put(w, who, f), other) == FighterOf(w, other)
  {
    var k := SlotOf(w.slots, who);
    if k < |w.slots| {
      assert Holds(w.slots, who);
      PutKeepsSafe(w, k, f);
    }
    forall other | other != who && Holds(w.slots, other)
      ensures Holds(Put(w, who, f).slots, other) && FighterOf(Put(w, who, f), other) == FighterOf(w, other)
    {
      OtherFighterStays(w, who, f, other);
    }
  }

  lemma OtherFighterStays<T>(w: World<T>, who: T, f: Fighter, other: T)
    requires other != who && Holds(w.slots, other)
    ensures Holds(Put(w, who, f).slots, other) && FighterOf(Put(w, who, f), other) == FighterOf(w, other)
  {
    var w', k := Put(w, who, f), SlotOf(w.slots, who);
    if k < |w.slots| {
      SlotOfStays(w.slots, k, f, other);
      assert w'.slots[SlotOf(w.slots, other)] == w.slots[SlotOf(w.slots, other)];
    }
  }

  lemma MendKeepsSafe<T>(w: World<T>, who: T, f: Fighter, patient: T)
    requires Safe(w) && Enabled(w, MendCmd(who, f, patient))
    ensures Safe(Mend(w, who, f, patient))
  {
    if CanMend(f, FighterOf(w, patient)) {
      var w1 := Put(w, who, f.(hp := f.hp - 5));
      PutByNameKeepsSafe(w, who, f.(hp := f.hp - 5));
      PutByNameKeepsSafe(w1, patient, Healed(FighterOf(w, patient)));
    }
  }

  lemma AttackKeepsSafe<T>(w: World<T>, who: T, f: Fighter, arg: string, now: int)
    requires Safe(w) && Enabled(w, AttackCmd(who, f, arg, now))
    ensures Safe(Attack(w, who, f, arg, now))
  {
    if CanAttack(f, w.rat, arg) {
      AdvanceKeepsSafe(w, now);
      PutByNameKeepsSafe(w.(clock := now), who, Engaged(f, now));
    }
  }

  // ---- The heartbeat -----------------------------------------------------------------------------------------

  lemma ThisLifeAppend<T>(log: seq<Entry<T>>, e: Entry<T>)
    ensures ThisLife(log + [e]) == match e
      case Respawn(_) => Tally(0, 0, 0)
      case Gone(_, _) => ThisLife(log)
      case Swing(_, _, harm, award) =>
        Tally(ThisLife(log).swings + 1, ThisLife(log).harm + harm, ThisLife(log).award + award)
  {
    assert (log + [e])[..|log + [e]| - 1] == log;
  }

  lemma RoundKeepsLife<T>(who: T, f: Fighter, rat: Rat, log: seq<Entry<T>>, now: int, killedAt: int)
    requires RatOk(rat, killedAt) && LifeOk(rat, ThisLife(log)) && 0 < killedAt
    ensures var rat' := RoundRat(f, rat, killedAt);
            RatOk(rat', killedAt) && LifeOk(rat', ThisLife(log + RoundLog(who, f, rat, now)))
  {
    var more := RoundLog(who, f, rat, now);
    if more == [] { assert log + more == log; } else { ThisLifeAppend(log, more[0]); }
  }

  /** A due round comes a whole period after the earlier rounds of its fighter, and the next one is due a whole
      period later. */
  lemma RoundIsSpaced<T>(who: T, f: Fighter, rat: Rat, log: seq<Entry<T>>, now: int)
    requires Spaced(log) && f.inCombat && f.lastTick <= now && WaitsFor(who, f, log)
    ensures var armed := f.(lastTick := now + COMBAT_MS);
            var log' := log + RoundLog(who, armed, rat, now);
            Spaced(log') && WaitsFor(who, RoundFighter(armed, rat), log')
  {
  }

  lemma RoundKeepsFighter(f: Fighter, rat: Rat, clock: int, now: int)
    requires FighterOk(f, rat, clock) && f.inCombat && f.lastTick <= now && 0 < now <= clock
    ensures var armed := f.(lastTick := now + COMBAT_MS);
            FighterOk(RoundFighter(armed, rat), RoundRat(armed, rat, clock), clock)
  {
  }

  /** A round of someone else, and what it does to the rat, leave a fighter in order. */
  lemma RoundKeepsOthers<T>(other: T, g: Fighter, who: T, f: Fighter, rat: Rat, log: seq<Entry<T>>, clock: int,
                            now: int)
    requires other != who && FighterOk(g, rat, clock) && WaitsFor(other, g, log)
    ensures FighterOk(g, RoundRat(f, rat, clock), clock) && WaitsFor(other, g, log + RoundLog(who, f, rat, now))
  {
  }

  /** Slot `i` holds a fighter whose round is due, in a safe world. */
  ghost predicate RoundDue<T>(w: World<T>, i: nat, now: int) {
    && Safe(w) && i < |w.slots| && 0 < now <= w.clock
    && w.slots[i].Held? && w.slots[i].body.inCombat && w.slots[i].body.lastTick <= now
  }

  lemma DueRoundKeepsTable<T>(w: World<T>, i: nat, now: int)
    requires RoundDue(w, i, now)
    ensures TableOk(Pulse(w, i, now, w.clock))
  {
    OccupiedAfterWrite(w.slots, i, Pulse(w, i, now, w.clock).slots[i]);
  }

  lemma DueRoundKeepsFighters<T>(w: World<T>, i: nat, now: int)
    requires RoundDue(w, i, now)
    ensures FightersOk(Pulse(w, i, now, w.clock))
  {
    var who, f := w.slots[i].who, w.slots[i].body;
    var w' := Pulse(w, i, now, w.clock);
    forall k | 0 <= k < |w'.slots| && w'.slots[k].Held?
      ensures FighterOk(w'.slots[k].body, w'.rat, w'.clock) && WaitsFor(w'.slots[k].who, w'.slots[k].body, w'.log)
    {
      if k == i {
        RoundIsSpaced(who, f, w.rat, w.log, now);
        RoundKeepsFighter(f, w.rat, w.clock, now);
      } else {
        assert w'.slots[k] == w.slots[k];
        RoundKeepsOthers(w.slots[k].who, w.slots[k].body, who, f.(lastTick := now + COMBAT_MS), w.rat, w.log, w.clock,
                         now);
      }
    }
  }

  lemma DueRoundKeepsLog<T>(w: World<T>, i: nat, now: int)
    requires RoundDue(w, i, now)
    ensures LogOk(Pulse(w, i, now, w.clock))
  {
    RoundIsSpaced(w.slots[i].who, w.slots[i].body, w.rat, w.log, now);
  }

  /** A due round keeps the world safe. */
  lemma DueRoundKeepsSafe<T>(w: World<T>, i: nat, now: int)
    requires RoundDue(w, i, now)
    ensures Safe(Pulse(w, i, now, w.clock))
  {
    DueRoundKeepsTable(w, i, now);
    DueRoundKeepsFighters(w, i, now);
    DueRoundKeepsLog(w, i, now);
    var f := w.slots[i].body;
    RoundKeepsLife(w.slots[i].who, f.(lastTick := now + COMBAT_MS), w.rat, w.log, now, w.clock);
  }

  lemma PulseKeepsSafe<T>(w: World<T>, i: nat, now: int)
    requires Safe(w) && i < |w.slots| && 0 < now <= w.clock
    ensures Safe(Pulse(w, i, now, w.clock))
    ensures Pulse(w, i, now, w.clock).clock == w.clock
  {
    if w.slots[i].Held? && w.slots[i].body.inCombat {
      var f := w.slots[i].body;
      if f.lastTick <= now { DueRoundKeepsSafe(w, i, now); } else { PutKeepsSafe(w, i, f); }
    }
  }

  /** Nobody in the first `n` slots has a round overdue. */
  ghost predicate NoneDue<T>(slots: seq<Slot<T, Fighter>>, n: nat, now: int)
    requires n <= |slots|
  {
    forall k :: 0 <= k < n && slots[k].Held? && slots[k].body.inCombat ==> now < slots[k].body.lastTick
  }

  lemma PulseSettles<T>(w: World<T>, i: nat, now: int)
    requires Safe(w) && i < |w.slots| && 0 < now && NoneDue(w.slots, i, now)
    ensures var r := Pulse(w, i, now, w.clock);
            && |r.slots| == |w.slots| && NoneDue(r.slots, i + 1, now)
            && (!w.rat.alive ==> r.rat == w.rat) && (w.rat.alive && !r.rat.alive ==> r.rat.diedAt == w.clock)
  {
    var r := Pulse(w, i, now, w.clock);
    assert forall k :: 0 <= k < i ==> r.slots[k] == w.slots[k];
  }

  /** Pulsing the rest of the table keeps the world safe, leaves no due fighter without its round, and once the
      rat has been dead for a whole combat period leaves nobody fighting it. */
  lemma {:induction false} PulseFromKeepsSafe<T>(w: World<T>, i: nat, now: int)
    requires Safe(w) && i <= |w.slots| && 0 < now <= w.clock && NoneDue(w.slots, i, now)
    ensures var r := PulseFrom(w, i, now, w.clock);
            && Safe(r) && r.clock == w.clock && |r.slots| == |w.slots| && NoneDue(r.slots, |r.slots|, now)
            && (!w.rat.alive ==> r.rat == w.rat) && (w.rat.alive && !r.rat.alive ==> r.rat.diedAt == w.clock)
    decreases |w.slots| - i
  {
    if i < |w.slots| {
      PulseKeepsSafe(w, i, now);
      PulseSettles(w, i, now);
      PulseFromKeepsSafe(Pulse(w, i, now, w.clock), i + 1, now);
    }
  }

  lemma {:induction false} TickKeepsOccupied<T>(slots: seq<Slot<T, Fighter>>)
    ensures Occupied(TickAll(slots)) == Occupied(slots)
  {
    if slots != [] {
      var last := |slots| - 1;
      assert TickAll(slots)[..last] == TickAll(slots[..last]);
      TickKeepsOccupied(slots[..last]);
    }
  }

  lemma WorldBeatKeepsSafe<T>(w: World<T>, now: int)
    requires Safe(w)
    ensures Safe(WorldBeat(w, now))
    ensures var r := WorldBeat(w, now);
            r.rat == w.rat && r.clock == w.clock && |r.slots| == |w.slots| &&
            forall k :: 0 <= k < |r.slots| && r.slots[k].Held? ==>
              w.slots[k].Held? && r.slots[k].body.inCombat == w.slots[k].body.inCombat &&
              r.slots[k].body.lastTick == w.slots[k].body.lastTick
  {
    TickKeepsOccupied(w.slots);
  }

  ghost predicate NobodyFights<T>(slots: seq<Slot<T, Fighter>>) {
    forall k :: 0 <= k < |slots| && slots[k].Held? ==> !slots[k].body.inCombat
  }

  /** One heartbeat keeps the world safe; afterwards no fighter is left with an overdue round; and the rat comes
      back exactly at the first beat twenty seconds after its death, when nobody is fighting any more. */
  lemma BeatKeepsSafe<T>(w: World<T>, now: int, killedAt: int)
    requires Safe(w) && Enabled(w, Heartbeat(now, killedAt))
    ensures var r := Beat(w, now, killedAt);
            && Safe(r) && r.clock == killedAt
            && (forall k :: 0 <= k < |r.slots| && r.slots[k].Held? && r.slots[k].body.inCombat ==>
                  now < r.slots[k].body.lastTick)
            && (RespawnDue(w, now) ==> r.rat == Rat(RAT_MAX_HP, true, 0) && NobodyFights(r.slots))
            && (!w.rat.alive && !RespawnDue(w, now) ==> r.rat == w.rat)
  {
    AdvanceKeepsSafe(w, killedAt);
    var w1 := w.(clock := killedAt);
    PulseFromKeepsSafe(w1, 0, now);
    var w2 := PulseFrom(w1, 0, now, killedAt);
    WorldBeatKeepsSafe(w2, now);
    var w3 := WorldBeat(w2, now);
    if RespawnDue(w3, now) {
      assert !w.rat.alive;
      assert NobodyFights(w3.slots);
      ThisLifeAppend(w3.log, Respawn(now));
    }
  }

  // ---- Every run ---------------------------------------------------------------------------------------------

  lemma StepKeepsSafe<T>(w: World<T>, e: Event<T>)
    requires Safe(w) && Enabled(w, e)
    ensures Safe(Step(w, e))
  {
    match e
    case Enter(who, f) => JoinKeepsSafe(w, who, f);
    case Exit(who) => LeaveKeepsSafe(w, who);
    case Heartbeat(now, killedAt) => BeatKeepsSafe(w, now, killedAt);
    case AttackCmd(who, f, arg, now) => AttackKeepsSafe(w, who, f, arg, now);
    case RestCmd(who, f) => PutByNameKeepsSafe(w, who, Rested(f));
    case MendCmd(who, f, patient) => MendKeepsSafe(w, who, f, patient);
    case OwnCmd(who, f, cmd) => PutByNameKeepsSafe(w, who, Adjusted(f, cmd));
  }

  lemma BootIsSafe<T>()
    ensures Safe(Boot<T>())
  {
    OccupiedVacant<T, Fighter>(MAX_SESSIONS);
  }

  lemma {:induction false} RunKeepsSafe<T>(w: World<T>, es: seq<Event<T>>)
    requires Safe(w) && ValidRun(w, es)
    ensures Safe(Run(w, es))
    decreases |es|
  {
    if es != [] {
      StepKeepsSafe(w, es[0]);
      RunKeepsSafe(Step(w, es[0]), es[1..]);
    }
  }

  /** Over every run from boot, whatever the sessions do: rounds of one session are 2000 ms apart; the rat's
      current life has seen at most two rounds while it lasts, three when it is over, and at most 8 damage over all
      fighters together, and has paid 8 experience if it is over and nothing if it is not; hit points stay in range;
      and no session occupies two registry slots while the count equals the slots in use. */
  lemma EveryRunIsSafe<T>(es: seq<Event<T>>)
    requires ValidRun(Boot<T>(), es)
    ensures var w := Run(Boot<T>(), es); var t := ThisLife(w.log);
            && Spaced(w.log)
            && t.swings <= (if w.rat.alive then 2 else 3) && t.harm <= 8 && t.award == (if w.rat.alive then 0 else 8)
            && (if w.rat.alive then 1 <= w.rat.hp <= 12 && w.rat.diedAt == 0 else w.rat.hp == 0 && 0 < w.rat.diedAt)
            && (forall i :: 0 <= i < |w.slots| && w.slots[i].Held? ==>
                  0 < w.slots[i].body.hp <= w.slots[i].body.maxHp)
            && Distinct(w.slots) && w.count == Occupied(w.slots)
  {
    BootIsSafe<T>();
    RunKeepsSafe(Boot<T>(), es);
  }

  /** In any run, a heartbeat brings a dead rat back exactly from twenty seconds after its death on, and then no
      registered session is still fighting. */
  lemma NoFightOutlivesItsRat<T>(es: seq<Event<T>>, now: int, killedAt: int)
    requires ValidRun(Boot<T>(), es) && Enabled(Run(Boot<T>(), es), Heartbeat(now, killedAt))
    ensures var w := Run(Boot<T>(), es); var r := Beat(w, now, killedAt);
            !w.rat.alive ==> (r.rat.alive <==> now >= w.rat.diedAt + 20000) && (r.rat.alive ==> NobodyFights(r.slots))
  {
    BootIsSafe<T>();
    RunKeepsSafe(Boot<T>(), es);
    BeatKeepsSafe(Run(Boot<T>(), es), now, killedAt);
  }
}
