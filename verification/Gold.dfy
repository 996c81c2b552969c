/** Gold left in a room for whoever comes next: `cache` and `gather` of `asm/social_ledger.asm`. */
module Gold {
  import opened Sessions

  const ROOMS := 64

  /** The gold every player carries, and the gold cached in every room. */
  datatype Purse = Purse(carried: seq<int>, cached: seq<int>)

  datatype Command = Cache(who: nat, room: int, amount: int) | Gather(who: nat, room: int)

  /** A cache needs a positive amount, the gold to cover it and a room on the map. */
  predicate CanCache(gold: int, room: int, amount: int) { amount > 0 && gold >= amount && 0 <= room < ROOMS }

  predicate CanGather(cached: seq<int>, room: int) { 0 <= room < |cached| && cached[room] > 0 }

  function Step(p: Purse, c: Command): Purse {
    if c.who >= |p.carried| then p
    else
      var gold := p.carried[c.who];
      match c
      case Cache(who, room, amount) =>
        if CanCache(gold, room, amount) && room < |p.cached| then
          Purse(p.carried[who := gold - amount], p.cached[room := p.cached[room] + amount])
        else p
      case Gather(who, room) =>
        if CanGather(p.cached, room) then
          Purse(p.carried[who := gold + p.cached[room]], p.cached[room := 0])
        else p
  }

  function Run(p: Purse, cs: seq<Command>): Purse {
    if cs == [] then p else Step(Run(p, cs[..|cs| - 1]), cs[|cs| - 1])
  }

  function Sum(s: seq<int>): int { if s == [] then 0 else Sum(s[..|s| - 1]) + s[|s| - 1] }

  predicate NoneNegative(s: seq<int>) { forall i :: 0 <= i < |s| ==> s[i] >= 0 }

  lemma {:induction false} SumAfterWrite(s: seq<int>, i: nat, x: int)
    requires i < |s|
    ensures Sum(s[i := x]) == Sum(s) - s[i] + x
  {
    var last := |s| - 1;
    if i < last {
      assert s[i := x][..last] == s[..last][i := x];
      SumAfterWrite(s[..last], i, x);
    } else {
      assert s[i := x][..last] == s[..last];
    }
  }

  predicate Conserved(q: Purse, r: Purse) {
    && Sum(r.carried) + Sum(r.cached) == Sum(q.carried) + Sum(q.cached)
    && NoneNegative(r.carried) && NoneNegative(r.cached)
    && |r.carried| == |q.carried| && |r.cached| == |q.cached|
  }

  /** Gold moved between a player and a room. */
  lemma MoveConserves(q: Purse, who: nat, room: nat, carried: int, cached: int)
    requires NoneNegative(q.carried) && NoneNegative(q.cached) && who < |q.carried| && room < |q.cached|
    requires carried >= 0 && cached >= 0 && carried + cached == q.carried[who] + q.cached[room]
    ensures Conserved(q, Purse(q.carried[who := carried], q.cached[room := cached]))
  {
    SumAfterWrite(q.carried, who, carried);
    SumAfterWrite(q.cached, room, cached);
  }

  lemma StepConserves(q: Purse, c: Command)
    requires NoneNegative(q.carried) && NoneNegative(q.cached)
    ensures Conserved(q, Step(q, c))
  {
    if c.who < |q.carried| {
      var gold := q.carried[c.who];
      match c
      case Cache(who, room, amount) =>
        if CanCache(gold, room, amount) && room < |q.cached| {
          MoveConserves(q, who, room, gold - amount, q.cached[room] + amount);
        }
      case Gather(who, room) =>
        if CanGather(q.cached, room) { MoveConserves(q, who, room, gold + q.cached[room], 0); }
    }
  }

  /** Over every sequence of caches and gathers by any players in any rooms, no gold appears or disappears, and
      nobody's purse and no room's hoard goes below zero. */
  lemma {:induction false} GoldIsConserved(p: Purse, cs: seq<Command>)
    requires NoneNegative(p.carried) && NoneNegative(p.cached)
    ensures Conserved(p, Run(p, cs))
  {
    if cs != [] {
      GoldIsConserved(p, cs[..|cs| - 1]);
      StepConserves(Run(p, cs[..|cs| - 1]), cs[|cs| - 1]);
    }
  }

  /** One player leaves gold in a room and another takes it up: the amount, and all that lay there, changes hands, and
      nobody else and no other room notices. It works exactly if the first player has a positive amount to leave and
      the room is on the map. */
  lemma LeftAndFound(p: Purse, giver: nat, taker: nat, room: int, amount: int)
    requires |p.cached| == 64 && NoneNegative(p.cached) && giver < |p.carried| && taker < |p.carried| && giver != taker
    ensures var q := Step(Step(p, Cache(giver, room, amount)), Gather(taker, room));
            var left := 0 < amount <= p.carried[giver] && 0 <= room < 64;
            && (left ==> q == Purse(p.carried[giver := p.carried[giver] - amount]
                                             [taker := p.carried[taker] + p.cached[room] + amount],
                                    p.cached[room := 0]))
            && (!left ==> q == Step(p, Gather(taker, room)))
  {
  }

  /** With nothing left there is nothing to find: a second gather changes nothing. */
  lemma GatherTwice(p: Purse, who: nat, room: int)
    ensures var q := Step(p, Gather(who, room)); who < |p.carried| ==> Step(q, Gather(who, room)) == q
    ensures var q := Step(p, Gather(who, room));
            who < |p.carried| && 0 <= room < |p.cached| && p.cached[room] > 0 ==>
              q.carried[who] == p.carried[who] + p.cached[room] && q.cached[room] == 0
  {
  }

  /** `hg_cmd_cache`, once the amount has been read. `gold` is `Step` on this player and this room. */
  method CmdCache(s: Session, caches: array<int>, amount: int) returns (done: bool)
    requires caches.Length == ROOMS
    modifies s`gold, s`morality, caches
    ensures done == CanCache(old(s.gold), s.room, amount)
    ensures Purse([s.gold], caches[..]) == Step(Purse([old(s.gold)], old(caches[..])), Cache(0, s.room, amount))
    ensures s.morality == old(s.morality) + if done then 2 else 0
  {
    if amount <= 0 || s.gold < amount || s.room < 0 || s.room >= ROOMS {
      return false;
    }
    s.gold := s.gold - amount;
    caches[s.room] := caches[s.room] + amount;
    s.morality := s.morality + 2;
    done := true;
  }

  /** `hg_cmd_gather`: take everything cached here. */
  method CmdGather(s: Session, caches: array<int>) returns (done: bool)
    requires caches.Length == ROOMS
    modifies s`gold, caches
    ensures done == CanGather(old(caches[..]), s.room)
    ensures Purse([s.gold], caches[..]) == Step(Purse([old(s.gold)], old(caches[..])), Gather(0, s.room))
  {
    if s.room < 0 || s.room >= ROOMS || caches[s.room] <= 0 {
      return false;
    }
    var found := caches[s.room];
    caches[s.room] := 0;
    s.gold := s.gold + found;
    done := true;
  }
}
