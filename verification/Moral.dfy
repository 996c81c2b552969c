/** The commands of the moral arc on session blocks: `join`, `defend`, `defy`, `steal` and `forgive`. */
module Moral {
  import opened CStrings
  import opened Seating
  import opened Sessions
  import opened MoralSpec
  import opened Ledgers
  import opened Finder

  ghost function SoulOf(s: Session): Soul
    reads s`room, s`race, s`faction, s`title, s`morality, s`ashsworn, s`strayed, s`redeemed, s`marketDone
  {
    Soul(s.room, s.race, s.faction, s.title, s.morality, s.ashsworn, s.strayed, s.redeemed,
         s.marketDone)
  }

  /** `resolve_return_h`. */
  method ResolveReturn(s: Session)
    modifies s`redeemed, s`title
    ensures SoulOf(s) == Returned(old(SoulOf(s)))
  {
    s.redeemed := true;
    if s.title == "" {
      s.title := RETURNED;
    }
  }

  /** `moral_arc_h`. */
  method MoralArc(s: Session)
    modifies s`strayed, s`redeemed, s`title
    ensures SoulOf(s) == Arc(old(SoulOf(s)))
  {
    if !s.strayed {
      if s.morality <= STRAY_FLOOR {
        s.strayed := true;
      }
      return;
    }
    if s.redeemed || s.morality < REDEEM_CEIL || s.faction == "front" {
      return;
    }
    if s.ashsworn {
      s.redeemed := true;
    } else {
      ResolveReturn(s);
    }
  }

  /** `hg_dais_pledge`. */
  method DaisPledge(s: Session)
    modifies s`faction, s`morality, s`ashsworn, s`strayed, s`redeemed, s`title
    ensures SoulOf(s) == Pledge(old(SoulOf(s)))
  {
    if s.room != ROOM_DAIS || s.faction != "none" {
      return;
    }
    s.faction := "front";
    if EqNoCase(s.race, "elf") || EqNoCase(s.race, "dustkin") {
      s.ashsworn := true;
      s.morality := s.morality - 40;
    } else {
      s.morality := s.morality - 25;
    }
    MoralArc(s);
  }

  /** `hg_cmd_join`. */
  method CmdJoin(s: Session)
    modifies s`faction, s`morality, s`ashsworn, s`strayed, s`redeemed, s`title, s`marketDone
    ensures SoulOf(s) == Obeyed(old(SoulOf(s)), JoinCmd)
  {
    if s.room == ROOM_DAIS {
      DaisPledge(s);
      return;
    }
    if s.room != ROOM_MARKET || s.marketDone {
      return;
    }
    s.marketDone := true;
    s.faction := "front";
    if EqNoCase(s.race, "elf") || EqNoCase(s.race, "dustkin") {
      s.ashsworn := true;
      s.morality := s.morality - 40;
    } else {
      s.morality := s.morality - 15;
    }
    MoralArc(s);
  }

  /** `hg_cmd_defend`. */
  method CmdDefend(s: Session)
    modifies s`faction, s`morality, s`marketDone
    ensures SoulOf(s) == Obeyed(old(SoulOf(s)), DefendCmd)
  {
    if s.room == ROOM_MARKET && !s.marketDone {
      s.marketDone := true;
      s.faction := "ally";
      s.morality := s.morality + 25;
    }
  }

  /** `hg_cmd_defy`: turn on the Front, and come back at once when the way is open. */
  method CmdDefy(s: Session)
    modifies s`faction, s`morality, s`strayed, s`redeemed, s`title
    ensures SoulOf(s) == Obeyed(old(SoulOf(s)), DefyCmd)
  {
    if s.room != ROOM_DAIS || s.faction != "front" {
      return;
    }
    s.faction := "ally";
    s.morality := s.morality + 30;
    if s.strayed && !s.redeemed && !s.ashsworn && s.morality >= REDEEM_CEIL {
      ResolveReturn(s);
    } else {
      MoralArc(s);
    }
  }

  /** `hg_cmd_steal`, as far as it touches the arc. */
  method CmdSteal(s: Session)
    modifies s`morality, s`gold, s`strayed, s`redeemed, s`title
    ensures SoulOf(s) == Obeyed(old(SoulOf(s)), StealCmd)
    ensures s.gold == old(s.gold) + if s.room == ROOM_MARKET then 12 else 0
  {
    if s.room == ROOM_MARKET {
      s.morality := s.morality - 8;
      s.gold := s.gold + 12;
      MoralArc(s);
    }
  }

  datatype Answer = OneselfNamed | NobodyFound | ForgivenBefore | NothingToForgive | Forgave

  /** `hg_cmd_forgive` from the parsed word on. The target is looked up with nobody left out, so it can be the
      forgiver; the new state is the step `Forgive` for both roles, also when one player plays both. */
  method CmdForgive(s: Session, word: string, table: array<Session?>, ledger: PairTable)
    returns (answer: Answer, target: Session?)
    requires ledger.Valid() && word != "" && |s.name| < NAME_SIZE
    requires forall i :: 0 <= i < table.Length && table[i] != null ==> |table[i].name| < NAME_SIZE
    modifies s`morality, (set t: Session | t in table[..])`morality, (set t: Session | t in table[..])`redeemed
    modifies (set t: Session | t in table[..])`title, ledger, ledger.a, ledger.b
    ensures ledger.Valid()
    ensures answer == OneselfNamed <==> EqNoCase(word, s.name)
    ensures target == null <==> answer == OneselfNamed || answer == NobodyFound
    ensures answer != OneselfNamed ==>
      var k := Found(old(Seats(table)), s.room, word, "", 0, -1);
      if k < 0 then target == null else k < table.Length && target == old(table[k])
    ensures target != null ==> target in old(table[..])
    ensures target == null ==> SoulOf(s) == old(SoulOf(s)) && ledger.attempts == old(ledger.attempts)
    ensures forall t: Session :: t in old(table[..]) && t != s && t != target ==> SoulOf(t) == old(SoulOf(t))
    ensures target != null ==>
      Fair(s, target, old(SoulOf(s)), old(SoulOf(target)), answer, old(ledger.attempts), ledger)
  {
    if EqNoCase(word, s.name) {
      return OneselfNamed, null;
    }
    var t, k := FindPlayerPrefix(table, s.room, word, "");
    if t == null {
      return NobodyFound, null;
    }
    assert t in table[..];
    target := t;
    answer := ForgiveFound(s, t, ledger);
  }

  /** The answer fits the state before, the state after is the step, and the ledger gains exactly what was given. */
  ghost predicate Fair(s: Session, t: Session, u: Soul, v: Soul, answer: Answer, attempts: seq<Pair>,
                       ledger: PairTable)
    reads s, t, ledger
  {
    var p := Pair(s.name, t.name);
    && (SoulOf(s), SoulOf(t)) == ForgivePair(u, v, s == t, answer == ForgivenBefore)
    && (answer == ForgivenBefore <==> Key(p) in Stored(attempts, ledger.a.Length))
    && (answer == NothingToForgive ==> !Marked(v)) && (answer == Forgave ==> Marked(v))
    && ledger.attempts == attempts + if answer == Forgave then [p] else []
  }

  /** The decision about a player who has been found. */
  method ForgiveFound(s: Session, t: Session, ledger: PairTable) returns (answer: Answer)
    requires ledger.Valid() && |s.name| < NAME_SIZE && |t.name| < NAME_SIZE
    modifies s`morality, t`morality, t`redeemed, t`title, ledger, ledger.a, ledger.b
    ensures ledger.Valid() && answer in {ForgivenBefore, NothingToForgive, Forgave}
    ensures Fair(s, t, old(SoulOf(s)), old(SoulOf(t)), answer, old(ledger.attempts), ledger)
  {
    var known := ledger.Has(s.name, t.name);
    if known {
      return ForgivenBefore;
    }
    var marked := IsMarked(t);
    if !marked {
      return NothingToForgive;
    }
    ledger.Mark(s.name, t.name);
    ForgiveMarked(s, t);
    answer := Forgave;
  }

  method IsMarked(t: Session) returns (marked: bool)
    ensures marked == Marked(SoulOf(t))
  {
    marked := t.ashsworn || t.strayed || t.faction == "front" || t.morality <= -50;
  }

  method Absolve(t: Session)
    modifies t`redeemed, t`title
    ensures SoulOf(t) == Absolved(old(SoulOf(t)))
  {
    if !t.ashsworn && t.strayed && !t.redeemed && t.faction != "front" {
      ResolveReturn(t);
    }
  }

  /** The effects: five for the forgiven, two for the forgiver, and the way back where it is open. */
  method ForgiveMarked(s: Session, t: Session)
    requires Marked(SoulOf(t))
    modifies s`morality, t`morality, t`redeemed, t`title
    ensures (SoulOf(s), SoulOf(t)) == ForgivePair(old(SoulOf(s)), old(SoulOf(t)), s == t, false)
  {
    t.morality := t.morality + 5;
    s.morality := s.morality + 2;
    Absolve(t);
  }

  /** `hg_cmd_witness` once a fallen player of that name has been found on the roll: a memory is rewarded when it is
      not in the ledger of kept names yet. */
  method CmdWitness(s: Session, fallen: string, kept: PairTable) returns (rewarded: bool)
    requires kept.Valid() && |s.name| < NAME_SIZE && |fallen| < NAME_SIZE
    modifies s`morality, kept, kept.a, kept.b
    ensures kept.Valid() && kept.attempts == old(kept.attempts) + [Pair(s.name, fallen)]
    ensures SoulOf(s) == Obeyed(old(SoulOf(s)), GoodDeed(if rewarded then 2 else 0))
    ensures Rewards(kept.attempts, Key(Pair(s.name, fallen)), kept.a.Length) ==
      Rewards(old(kept.attempts), Key(Pair(s.name, fallen)), kept.a.Length) + if rewarded then 1 else 0
  {
    rewarded := kept.RewardOnce(s.name, fallen);
    if rewarded {
      s.morality := s.morality + 2;
    }
  }
}
