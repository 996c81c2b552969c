/** The moral arc: straying, redemption, and the commands of `asm/combat.asm`, `asm/social_ledger.asm` and
    `asm/social_grid.asm` that move a player along it. */
module MoralSpec {
  import opened CStrings

  const STRAY_FLOOR := -20
  const REDEEM_CEIL := 5
  const RETURNED := "the Returned"
  const ROOM_MARKET := 2
  const ROOM_DAIS := 23

  /** The part of a session the arc reads and writes. */
  datatype Soul = Soul(room: int, race: string, faction: string, title: string, morality: int,
                       ashsworn: bool, strayed: bool, redeemed: bool, marketDone: bool)

  predicate Hunted(race: string) { EqNoCase(race, "elf") || EqNoCase(race, "dustkin") }

  // ---- The arc -----------------------------------------------------------------------------------------------

  /** `resolve_return_h`: redeemed, and titled unless a title is worn already. */
  function Returned(s: Soul): Soul { s.(redeemed := true, title := if s.title == "" then RETURNED else s.title) }

  /** `moral_arc_h`. */
  function Arc(s: Soul): Soul {
    if !s.strayed then (if s.morality > STRAY_FLOOR then s else s.(strayed := true))
    else if s.redeemed || s.morality < REDEEM_CEIL || s.faction == "front" then s
    else if s.ashsworn then s.(redeemed := true)
    else Returned(s)
  }

  // ---- The commands ------------------------------------------------------------------------------------------

  function JoinMarket(s: Soul): Soul {
    if s.room != ROOM_MARKET || s.marketDone then s
    else
      var joined := s.(marketDone := true, faction := "front");
      Arc(if Hunted(s.race) then joined.(ashsworn := true, morality := s.morality - 40)
          else joined.(morality := s.morality - 15))
  }

  function Pledge(s: Soul): Soul {
    if s.room != ROOM_DAIS || s.faction != "none" then s
    else Arc(if Hunted(s.race) then s.(faction := "front", ashsworn := true, morality := s.morality - 40)
             else s.(faction := "front", morality := s.morality - 25))
  }

  function Join(s: Soul): Soul { if s.room == ROOM_DAIS then Pledge(s) else JoinMarket(s) }

  function Defend(s: Soul): Soul {
    if s.room != ROOM_MARKET || s.marketDone then s
    else s.(marketDone := true, faction := "ally", morality := s.morality + 25)
  }

  function Defy(s: Soul): Soul {
    if s.room != ROOM_DAIS || s.faction != "front" then s
    else
      var turned := s.(faction := "ally", morality := s.morality + 30);
      if turned.strayed && !turned.redeemed && !turned.ashsworn && turned.morality >= REDEEM_CEIL then Returned(turned)
      else Arc(turned)
  }

  function Steal(s: Soul): Soul { if s.room != ROOM_MARKET then s else Arc(s.(morality := s.morality - 8)) }

  /** Whether there is anything to forgive. */
  predicate Marked(t: Soul) { t.ashsworn || t.strayed || t.faction == "front" || t.morality <= -50 }

  /** What forgiveness does to the one forgiven, beyond the change in morality. */
  function Absolved(t: Soul): Soul {
    if t.ashsworn || !t.strayed || t.redeemed || t.faction == "front" then t else Returned(t)
  }

  datatype Command =
    | JoinCmd
    | DefendCmd
    | DefyCmd
    | StealCmd
    | GoodDeed(worth: nat)          // cache, witness, free, shelter: morality for the better, and no look at the arc
    | TitleCmd(title: string)
    | MoveTo(room: int)

  function Obeyed(s: Soul, c: Command): Soul {
    match c
    case JoinCmd => Join(s)
    case DefendCmd => Defend(s)
    case DefyCmd => Defy(s)
    case StealCmd => Steal(s)
    case GoodDeed(worth) => s.(morality := s.morality + worth)
    case TitleCmd(title) => s.(title := CopyCap(title, 48))
    case MoveTo(room) => s.(room := room)
  }

  /** A command by one player, or one player forgiving another (or, by a prefix of the own name, the same one);
      `known` says the pair is in the ledger already. */
  datatype Event<T> = Do(who: T, cmd: Command) | Forgive(who: T, target: T, known: bool)

  function Step<T>(m: map<T, Soul>, e: Event<T>): map<T, Soul> {
    match e
    case Do(who, cmd) => if who in m then m[who := Obeyed(m[who], cmd)] else m
    case Forgive(who, target, known) =>
      if who !in m || target !in m || known || !Marked(m[target]) then m
      else
        var m1 := m[target := m[target].(morality := m[target].morality + 5)];
        var m2 := m1[who := m1[who].(morality := m1[who].morality + 2)];
        m2[target := Absolved(m2[target])]
  }

  function Run<T>(m: map<T, Soul>, es: seq<Event<T>>): (r: map<T, Soul>)
    ensures r.Keys == m.Keys
  {
    if es == [] then m else Step(Run(m, es[..|es| - 1]), es[|es| - 1])
  }

  /** One forgiveness on the two souls, or on the one soul in both roles. */
  function ForgivePair(u: Soul, v: Soul, same: bool, known: bool): (Soul, Soul) {
    if known || !Marked(v) then (u, v)
    else if same then (Absolved(v.(morality := v.morality + 7)), Absolved(v.(morality := v.morality + 7)))
    else (u.(morality := u.morality + 2), Absolved(v.(morality := v.morality + 5)))
  }

  /** The step changes nobody else, and these two accordingly. */
  lemma ForgiveStep<T>(m: map<T, Soul>, who: T, target: T, known: bool)
    requires who in m && target in m
    ensures var (u, v) := ForgivePair(m[who], m[target], who == target, known);
            Step(m, Forgive(who, target, known)) == m[who := u][target := v]
  {
  }

  // ---- What every command keeps ------------------------------------------------------------------------------

  /** Redemption comes after straying. */
  predicate InOrder(s: Soul) { s.redeemed ==> s.strayed }

  /** The mark of straying is there if the morality is at the floor. A character merged from the hub, or saved in the
      middle of a command, can start without it. */
  predicate MarkedAtFloor(s: Soul) { s.morality <= STRAY_FLOOR ==> s.strayed }

  /** How one command may change a soul: marks are never taken away; a redemption goes only to someone who has strayed
      and is not in the Front; and from a soul whose mark is right, straying is exactly reaching the floor. */
  predicate FairChange(s: Soul, t: Soul) {
    && (s.ashsworn ==> t.ashsworn) && (s.strayed ==> t.strayed) && (s.redeemed ==> t.redeemed)
    && (!s.redeemed && t.redeemed ==> s.strayed && t.faction != "front")
    && (InOrder(s) ==> InOrder(t))
    && (MarkedAtFloor(s) ==> MarkedAtFloor(t) && (t.strayed <==> s.strayed || t.morality <= STRAY_FLOOR))
  }

  /** A grant of "the Returned". */
  predicate Granted(s: Soul, t: Soul) { s.title == "" && t.title == RETURNED }

  /** What a command other than `title` may do: a new title is the grant to someone untitled who had strayed, is not
      ash-sworn and is not in the Front, at the moment of redemption. */
  predicate FairCommand(s: Soul, t: Soul) {
    && FairChange(s, t)
    && (t.title != s.title ==>
          Granted(s, t) && s.strayed && !t.ashsworn && t.faction != "front" && !s.redeemed && t.redeemed)
  }

  /** The arc is fair to a soul whose morality, faction or brand a command has changed. */
  lemma ArcIsFair(s: Soul, moved: Soul)
    requires s.ashsworn ==> moved.ashsworn
    requires moved.strayed == s.strayed && moved.redeemed == s.redeemed && moved.title == s.title
    ensures FairCommand(s, Arc(moved))
    ensures Arc(moved).title != s.title ==> Arc(moved).morality >= REDEEM_CEIL
    ensures Arc(moved).strayed <==> s.strayed || moved.morality <= STRAY_FLOOR
    ensures Arc(moved).morality == moved.morality
  {
  }

  /** Whether a command that is carried out ends with a look at the arc. */
  predicate Looks(s: Soul, c: Command) {
    match c
    case JoinCmd => (s.room == ROOM_DAIS && s.faction == "none") || (s.room == ROOM_MARKET && !s.marketDone)
    case DefyCmd => s.room == ROOM_DAIS && s.faction == "front"
    case StealCmd => s.room == ROOM_MARKET
    case _ => false
  }

  /** What every command promises, from every state: it is fair, grants the title only to the good enough, and marks
      as strayed exactly those whom a look at the arc finds at the floor. */
  predicate Kept(s: Soul, c: Command, t: Soul) {
    && (if c.TitleCmd? then FairChange(s, t) else FairCommand(s, t))
    && (!c.TitleCmd? && t.title != s.title ==> t.morality >= REDEEM_CEIL)
    && (t.strayed <==> s.strayed || (Looks(s, c) && t.morality <= STRAY_FLOOR))
  }

  lemma JoinIsFair(s: Soul)
    ensures Kept(s, JoinCmd, Join(s))
  {
    var market := s.(marketDone := true, faction := "front");
    if s.room == ROOM_DAIS {
      ArcIsFair(s, if Hunted(s.race) then s.(faction := "front", ashsworn := true, morality := s.morality - 40)
                   else s.(faction := "front", morality := s.morality - 25));
    } else {
      ArcIsFair(s, if Hunted(s.race) then market.(ashsworn := true, morality := s.morality - 40)
                   else market.(morality := s.morality - 15));
    }
  }

  lemma DefyIsFair(s: Soul)
    ensures Kept(s, DefyCmd, Defy(s))
  {
    ArcIsFair(s, s.(faction := "ally", morality := s.morality + 30));
  }

  lemma CommandIsFair(s: Soul, c: Command)
    ensures Kept(s, c, Obeyed(s, c))
  {
    match c
    case JoinCmd => JoinIsFair(s);
    case DefyCmd => DefyIsFair(s);
    case StealCmd => ArcIsFair(s, s.(morality := s.morality - 8));
    case _ =>
  }

  lemma ForgiveIsFair(u: Soul, v: Soul, same: bool, known: bool)
    requires same ==> u == v
    ensures var (u', v') := ForgivePair(u, v, same, known); FairCommand(u, u') && FairCommand(v, v')
    ensures var (u', v') := ForgivePair(u, v, same, known); u'.strayed == u.strayed && v'.strayed == v.strayed
  {
  }

  /** Whether an event ends with a look at the arc of `x`. */
  predicate LooksAt<T>(m: map<T, Soul>, e: Event<T>, x: T)
    requires x in m
  {
    e.Do? && e.who == x && Looks(m[x], e.cmd)
  }

  /** From any state at all, an event is fair to every player, forgiver and forgiven included, even when they are one;
      and it marks a player as strayed exactly when it looks at that player's arc and finds the floor. */
  lemma StepIsFair<T>(m: map<T, Soul>, e: Event<T>, x: T)
    requires x in m
    ensures var r := Step(m, e);
            && r.Keys == m.Keys
            && (if e.Do? && e.cmd.TitleCmd? then FairChange(m[x], r[x]) else FairCommand(m[x], r[x]))
            && (r[x].strayed <==> m[x].strayed || (LooksAt(m, e, x) && r[x].morality <= STRAY_FLOOR))
  {
    match e
    case Do(who, cmd) => if who in m { CommandIsFair(m[who], cmd); }
    case Forgive(who, target, known) =>
      if who in m && target in m {
        ForgiveStep(m, who, target, known);
        ForgiveIsFair(m[who], m[target], who == target, known);
      }
  }

  /** Over every sequence of commands, from any start: nothing clears a mark, and whoever was redeemed only after
      straying stays so. */
  lemma {:induction false} RunIsFair<T>(m: map<T, Soul>, es: seq<Event<T>>, x: T)
    requires x in m
    ensures var s, t := m[x], Run(m, es)[x];
            && (s.ashsworn ==> t.ashsworn) && (s.strayed ==> t.strayed) && (s.redeemed ==> t.redeemed)
            && (InOrder(s) ==> InOrder(t)) && (MarkedAtFloor(s) ==> MarkedAtFloor(t))
  {
    if es != [] {
      RunIsFair(m, es[..|es| - 1], x);
      StepIsFair(Run(m, es[..|es| - 1]), es[|es| - 1], x);
    }
  }

  /** Whether some event of the run has looked at the arc of `x` and found the floor. */
  predicate EverCaught<T>(m: map<T, Soul>, es: seq<Event<T>>, x: T)
    requires x in m
  {
    es != [] &&
    (EverCaught(m, es[..|es| - 1], x) ||
     (LooksAt(Run(m, es[..|es| - 1]), es[|es| - 1], x) && Run(m, es)[x].morality <= STRAY_FLOOR))
  }

  /** Over every run from any start, a player is marked as strayed exactly when that was so at the start or a look at
      the arc has found the floor. */
  lemma {:induction false} StrayedWhenCaught<T>(m: map<T, Soul>, es: seq<Event<T>>, x: T)
    requires x in m
    ensures Run(m, es)[x].strayed <==> m[x].strayed || EverCaught(m, es, x)
  {
    if es != [] {
      StrayedWhenCaught(m, es[..|es| - 1], x);
      StepIsFair(Run(m, es[..|es| - 1]), es[|es| - 1], x);
    }
  }

  /** Whether the morality of `x` has stood at the floor, at the start or after some command. */
  predicate EverAtFloor<T>(m: map<T, Soul>, es: seq<Event<T>>, x: T)
    requires x in m
  {
    Run(m, es)[x].morality <= STRAY_FLOOR || (es != [] && EverAtFloor(m, es[..|es| - 1], x))
  }

  /** The mark tells the whole truth about one run. */
  predicate MarkIsTrue<T>(m: map<T, Soul>, es: seq<Event<T>>, x: T)
    requires x in m
  {
    Run(m, es)[x].strayed <==> m[x].strayed || EverAtFloor(m, es, x)
  }

  lemma {:induction false} MarkStaysTrue<T>(m: map<T, Soul>, es: seq<Event<T>>, x: T)
    requires x in m && MarkedAtFloor(m[x])
    ensures MarkIsTrue(m, es, x)
  {
    if es != [] {
      var init := es[..|es| - 1];
      RunIsFair(m, init, x);
      MarkStaysTrue(m, init, x);
      StepIsFair(Run(m, init), es[|es| - 1], x);
    }
  }

  /** A player is marked as strayed exactly when that was so at the start or the morality has ever stood at the floor:
      this holds in every run if and only if the player did not start at the floor without the mark. */
  lemma StrayedExactlyWhen<T>(m: map<T, Soul>, x: T)
    requires x in m
    ensures (forall es :: MarkIsTrue(m, es, x)) <==> MarkedAtFloor(m[x])
  {
    if MarkedAtFloor(m[x]) {
      forall es ensures MarkIsTrue(m, es, x) { MarkStaysTrue(m, es, x); }
    } else {
      assert !MarkIsTrue(m, [], x);
    }
  }

  /** Someone who starts at the floor without the mark can leave it by good deeds and never be marked. */
  lemma MarkCanBeMissed<T>(x: T)
    ensures var m := map[x := Soul(ROOM_MARKET, "human", "none", "", -23, false, false, false, false)];
            var es := [Do(x, GoodDeed(15))];
            EverAtFloor(m, es, x) && !Run(m, es)[x].strayed && Run(m, es)[x].morality > STRAY_FLOOR
  {
    var m := map[x := Soul(ROOM_MARKET, "human", "none", "", -23, false, false, false, false)];
    var es := [Do(x, GoodDeed(15))];
    assert es[..0] == [] && Run(m, []) == m;
    assert EverAtFloor(m, [], x);
  }

  /** Whenever, in any run from any start, a command other than `title` changes someone's title, it is the grant of
      "the Returned" to someone untitled who had strayed, is not ash-sworn and is not in the Front, at the moment of
      redemption. */
  lemma ReturnedIsEarned<T>(m: map<T, Soul>, es: seq<Event<T>>, e: Event<T>, x: T)
    requires x in m && !(e.Do? && e.cmd.TitleCmd?)
    ensures var s, t := Run(m, es)[x], Run(m, es + [e])[x];
            t.title != s.title ==>
              Granted(s, t) && s.strayed && !t.ashsworn && t.faction != "front" && !s.redeemed && t.redeemed
  {
    assert (es + [e])[..|es|] == es;
    StepIsFair(Run(m, es), e, x);
  }

  // ---- Redemption --------------------------------------------------------------------------------------------

  /** Whether an event opens the way back to `x`: a look at the arc of someone who has strayed, is good enough again
      and is not in the Front, or the forgiveness of someone who has strayed, is not ash-sworn and not in the Front. */
  predicate Opens<T>(m: map<T, Soul>, e: Event<T>, x: T)
    requires x in m
  {
    match e
    case Do(who, cmd) => who == x && Looks(m[x], cmd) && m[x].strayed && Step(m, e)[x].morality >= 5
                         && Step(m, e)[x].faction != "front"
    case Forgive(who, target, known) =>
      who in m && target == x && !known && m[x].strayed && !m[x].ashsworn && m[x].faction != "front"
  }

  lemma ArcRedeemsExactlyWhen(s: Soul)
    ensures var t := Arc(s);
            && (t.redeemed <==> s.redeemed || (s.strayed && s.morality >= 5 && s.faction != "front"))
            && t == s.(strayed := t.strayed, redeemed := t.redeemed, title := t.title)
            && t.title == if s.title == "" && !s.redeemed && t.redeemed && !s.ashsworn then "the Returned" else s.title
  {
  }

  /** A command redeems exactly those whom it finds strayed, good enough and outside the Front when it looks at the
      arc, and gives "the Returned" exactly to the redeemed who are untitled and not ash-sworn. */
  lemma CommandRedeemsExactlyWhen(s: Soul, c: Command)
    ensures var t := Obeyed(s, c);
            && (t.redeemed <==> s.redeemed || (Looks(s, c) && s.strayed && t.morality >= 5 && t.faction != "front"))
            && (!c.TitleCmd? ==>
                  t.title == if s.title == "" && !s.redeemed && t.redeemed && !t.ashsworn then "the Returned"
                             else s.title)
  {
    match c
    case JoinCmd => JoinIsFair(s);
    case DefyCmd => ArcRedeemsExactlyWhen(s.(faction := "ally", morality := s.morality + 30));
    case StealCmd => ArcRedeemsExactlyWhen(s.(morality := s.morality - 8));
    case _ =>
  }

  /** A forgiveness is given exactly to someone new to the forgiver who bears a brand, the mark, the Front's colours or
      great infamy. It is worth five to the forgiven and two to the forgiver, seven to whoever is both, and redeems
      exactly the strayed who are not ash-sworn and not in the Front. */
  lemma ForgiveExactlyWhen(u: Soul, v: Soul, same: bool, known: bool)
    requires same ==> u == v
    ensures var (u', v') := ForgivePair(u, v, same, known);
            var given := !known && (v.ashsworn || v.strayed || v.faction == "front" || v.morality <= -50);
            && (!given ==> u' == u && v' == v)
            && (same ==> u' == v') && (!same ==> u' == u.(morality := if given then u.morality + 2 else u.morality))
            && v'.morality == v.morality + (if !given then 0 else if same then 7 else 5)
            && (v'.redeemed <==> v.redeemed || (!known && v.strayed && !v.ashsworn && v.faction != "front"))
            && v'.title == (if v.title == "" && !v.redeemed && v'.redeemed then "the Returned" else v.title)
            && v' == v.(morality := v'.morality, redeemed := v'.redeemed, title := v'.title)
  {
  }

  /** An event redeems a player exactly when it opens the way back. */
  lemma StepRedeemsExactlyWhen<T>(m: map<T, Soul>, e: Event<T>, x: T)
    requires x in m
    ensures Step(m, e)[x].redeemed <==> m[x].redeemed || Opens(m, e, x)
    ensures !(e.Do? && e.cmd.TitleCmd?) ==>
      Step(m, e)[x].title == if m[x].title == "" && !m[x].redeemed && Opens(m, e, x) && !Step(m, e)[x].ashsworn
                             then "the Returned" else m[x].title
  {
    match e
    case Do(who, cmd) => if who in m { CommandRedeemsExactlyWhen(m[who], cmd); }
    case Forgive(who, target, known) =>
      if who in m && target in m {
        ForgiveStep(m, who, target, known);
        ForgiveExactlyWhen(m[who], m[target], who == target, known);
      }
  }

  /** Whether some event of the run has opened the way back to `x`. */
  predicate EverOpened<T>(m: map<T, Soul>, es: seq<Event<T>>, x: T)
    requires x in m
  {
    es != [] && (EverOpened(m, es[..|es| - 1], x) || Opens(Run(m, es[..|es| - 1]), es[|es| - 1], x))
  }

  /** Over every run from any start, a player is redeemed exactly when that was so at the start or some event has opened
      the way back. */
  lemma {:induction false} RedeemedWhenOpened<T>(m: map<T, Soul>, es: seq<Event<T>>, x: T)
    requires x in m
    ensures Run(m, es)[x].redeemed <==> m[x].redeemed || EverOpened(m, es, x)
  {
    if es != [] {
      RedeemedWhenOpened(m, es[..|es| - 1], x);
      StepRedeemsExactlyWhen(Run(m, es[..|es| - 1]), es[|es| - 1], x);
    }
  }

  // ---- What the choices come to ------------------------------------------------------------------------------

  /** The choice at the market, once: a hunted race joins at the price of the brand and strays from 20 down, any other
      strays from -5 down; standing up is worth 25; and whoever has chosen cannot choose again. */
  lemma MarketChoice(s: Soul)
    requires s.room == 2 && !s.strayed
    ensures var joined, stood := Obeyed(s, JoinCmd), Obeyed(s, DefendCmd);
            var hunted := Lower(s.race) in {"elf", "dustkin"};
            if s.marketDone then joined == s && stood == s
            else
              && joined.marketDone && joined.faction == "front" && (joined.ashsworn <==> s.ashsworn || hunted)
              && (joined.strayed <==> s.morality <= if hunted then 20 else -5)
              && joined.morality == s.morality - (if hunted then 40 else 15)
              && stood == s.(marketDone := true, faction := "ally", morality := s.morality + 25)
  {
    assert Lower("elf") == "elf" && Lower("dustkin") == "dustkin";
  }

  /** Pledging at the dais and turning on the Front again: it brings back, as "the Returned", exactly the unhunted who
      started between 0 and 5; the hunted it redeems from 15 to 20, and never with the title. */
  lemma PledgeThenDefy(s: Soul)
    requires s.room == 23 && s.faction == "none" && !s.strayed && !s.redeemed && !s.ashsworn && s.title == ""
    ensures var t := Obeyed(Obeyed(s, JoinCmd), DefyCmd);
            var hunted := Lower(s.race) in {"elf", "dustkin"};
            && t.faction == "ally" && t.morality == s.morality + (if hunted then -10 else 5)
            && (t.strayed <==> s.morality <= if hunted then 20 else 5)
            && (t.redeemed <==> if hunted then 15 <= s.morality <= 20 else 0 <= s.morality <= 5)
            && (t.title == "the Returned" <==> !hunted && t.redeemed) && (t.ashsworn <==> hunted)
  {
    assert Lower("elf") == "elf" && Lower("dustkin") == "dustkin";
  }

  function Thefts(s: Soul, n: nat): Soul { if n == 0 then s else Obeyed(Thefts(s, n - 1), StealCmd) }

  /** Thefts at the market cost eight each, and the one that reaches the floor marks the thief. */
  lemma {:induction false} TheftsStray(s: Soul, n: nat)
    requires s.room == 2
    ensures var t := Thefts(s, n);
            && t.room == 2 && t.morality == s.morality - 8 * n
            && (t.strayed <==> s.strayed || (n > 0 && s.morality - 8 * n <= -20))
  {
    if n > 0 {
      TheftsStray(s, n - 1);
      var before := Thefts(s, n - 1);
      CommandIsFair(before, StealCmd);
      ArcRedeemsExactlyWhen(before.(morality := before.morality - 8));
    }
  }
}
