/** The session registry of `asm/combat.asm`: a table of slots that sessions occupy while they are in play.
    A slot names its occupant and carries whatever the component using the table keeps beside it. */
module Registry {
  datatype Slot<T, P> = Vacant | Held(who: T, body: P)

  const MAX_SESSIONS := 32

  ghost predicate Holds<T, P>(slots: seq<Slot<T, P>>, who: T) {
    exists i :: 0 <= i < |slots| && slots[i].Held? && slots[i].who == who
  }

  /** No session occupies two slots. */
  ghost predicate Distinct<T, P>(slots: seq<Slot<T, P>>) {
    forall i, j :: 0 <= i < j < |slots| && slots[i].Held? && slots[j].Held? ==> slots[i].who != slots[j].who
  }

  ghost function Occupied<T, P>(slots: seq<Slot<T, P>>): nat {
    if slots == [] then 0 else Occupied(slots[..|slots| - 1]) + if slots[|slots| - 1].Held? then 1 else 0
  }

  /** Where a registration stops: the first slot that is empty or already holds `who`. */
  ghost function Landing<T, P>(slots: seq<Slot<T, P>>, who: T, from: nat := 0): (k: nat)
    requires from <= |slots|
    ensures from <= k <= |slots|
    ensures k < |slots| ==> slots[k].Held? ==> slots[k].who == who
    ensures forall j :: from <= j < k ==> slots[j].Held? && slots[j].who != who
    decreases |slots| - from
  {
    if from == |slots| || slots[from].Vacant? || slots[from].who == who then from
    else Landing(slots, who, from + 1)
  }

  /** The first slot that holds `who`, or the table size. */
  ghost function SlotOf<T, P>(slots: seq<Slot<T, P>>, who: T, from: nat := 0): (k: nat)
    requires from <= |slots|
    ensures from <= k <= |slots|
    ensures k < |slots| ==> slots[k].Held? && slots[k].who == who
    ensures forall j :: from <= j < k ==> slots[j].Held? ==> slots[j].who != who
    decreases |slots| - from
  {
    if from == |slots| || (slots[from].Held? && slots[from].who == who) then from
    else SlotOf(slots, who, from + 1)
  }

  ghost function Registered<T, P>(slots: seq<Slot<T, P>>, who: T, body: P): seq<Slot<T, P>> {
    var k := Landing(slots, who);
    if k == |slots| then slots else slots[k := Held(who, body)]
  }

  /** What a registration adds to the session count, and what leaving takes from it. */
  ghost function Added<T, P>(slots: seq<Slot<T, P>>, who: T): nat {
    var k := Landing(slots, who);
    if k < |slots| && slots[k].Vacant? then 1 else 0
  }

  ghost function Dropped<T, P>(slots: seq<Slot<T, P>>, who: T): nat { if SlotOf(slots, who) < |slots| then 1 else 0 }

  ghost function Unregistered<T, P>(slots: seq<Slot<T, P>>, who: T): seq<Slot<T, P>> {
    var k := SlotOf(slots, who);
    if k == |slots| then slots else slots[k := Vacant]
  }

  lemma {:induction false} OccupiedAfterWrite<T, P>(slots: seq<Slot<T, P>>, k: nat, s: Slot<T, P>)
    requires k < |slots|
    ensures Occupied(slots[k := s]) + (if slots[k].Held? then 1 else 0) == Occupied(slots) + (if s.Held? then 1 else 0)
  {
    var last := |slots| - 1;
    if k < last {
      assert slots[k := s][..last] == slots[..last][k := s];
      OccupiedAfterWrite(slots[..last], k, s);
    } else {
      assert slots[k := s][..last] == slots[..last];
    }
  }

  /** Changing what a slot keeps beside its occupant moves nobody. */
  lemma {:induction false} SlotOfStays<T, P>(slots: seq<Slot<T, P>>, k: nat, body: P, who: T, from: nat := 0)
    requires k < |slots| && slots[k].Held? && from <= |slots|
    ensures SlotOf(slots[k := Held(slots[k].who, body)], who, from) == SlotOf(slots, who, from)
    decreases |slots| - from
  {
    if from < |slots| { SlotOfStays(slots, k, body, who, from + 1); }
  }

  lemma {:induction false} OccupiedVacant<T, P>(n: nat)
    ensures Occupied(seq(n, i => Slot<T, P>.Vacant)) == 0
  {
    if n > 0 {
      assert seq(n, i => Slot<T, P>.Vacant)[..n - 1] == seq(n - 1, i => Slot<T, P>.Vacant);
      OccupiedVacant<T, P>(n - 1);
    }
  }

  /** Registering keeps the table free of duplicates exactly when the session is not in the table yet, or no
      earlier slot has fallen empty in front of it. A second registration behind a hole would enter it twice. */
  lemma RegisterKeepsDistinctExactlyWhen<T, P>(slots: seq<Slot<T, P>>, who: T, body: P)
    requires Distinct(slots)
    ensures Distinct(Registered(slots, who, body))
      <==> !Holds(slots, who) || forall j :: 0 <= j < SlotOf(slots, who) ==> slots[j].Held?
  {
    var k, h := Landing(slots, who), SlotOf(slots, who);
    var after := Registered(slots, who, body);
    if k < h < |slots| {
      assert slots[k].Vacant?;
      assert after[k].who == who && after[h].who == who;
      assert Holds(slots, who);
    } else if k < |slots| {
      forall i, j | 0 <= i < j < |after| && after[i].Held? && after[j].Held? ensures after[i].who != after[j].who {
        assert i == k || after[i] == slots[i];
        assert j == k || after[j] == slots[j];
      }
    }
  }

  /** A registration fills one empty slot or none, and the count follows it. */
  lemma RegisterCounts<T, P>(slots: seq<Slot<T, P>>, who: T, body: P)
    ensures Occupied(Registered(slots, who, body)) == Occupied(slots) + Added(slots, who)
    ensures Landing(slots, who) < |slots| ==> Holds(Registered(slots, who, body), who)
  {
    var k := Landing(slots, who);
    if k < |slots| {
      OccupiedAfterWrite(slots, k, Held(who, body));
      assert Registered(slots, who, body)[k].who == who;
    }
  }

  /** A newcomer who finds room sits in one slot with what it brought, and nobody else has moved. */
  lemma NewcomerSits<T, P>(slots: seq<Slot<T, P>>, who: T, body: P)
    requires !Holds(slots, who) && exists i :: 0 <= i < |slots| && slots[i].Vacant?
    ensures var after := Registered(slots, who, body); var k := SlotOf(after, who);
            && |after| == |slots| && k < |slots| && slots[k].Vacant? && after[k] == Held(who, body)
            && forall j :: 0 <= j < |slots| && j != k ==> after[j] == slots[j]
  {
    var k := Landing(slots, who);
    var i :| 0 <= i < |slots| && slots[i].Vacant?;
    assert k <= i;
    var after := Registered(slots, who, body);
    assert after[k].who == who;
    assert forall j :: 0 <= j < k ==> after[j] == slots[j];
  }

  /** After unregistering, no slot refers to the session, every other slot is untouched, and the count drops by
      one exactly when the session was there, wherever the holes are. */
  lemma UnregisterRemoves<T, P>(slots: seq<Slot<T, P>>, who: T)
    requires Distinct(slots)
    ensures var after := Unregistered(slots, who);
            && |after| == |slots| && Distinct(after) && !Holds(after, who)
            && (forall j :: 0 <= j < |slots| && !(slots[j].Held? && slots[j].who == who) ==> after[j] == slots[j])
            && Occupied(after) == Occupied(slots) - Dropped(slots, who)
            && (Dropped(slots, who) == 1 <==> Holds(slots, who))
  {
    var k := SlotOf(slots, who);
    var after := Unregistered(slots, who);
    if k < |slots| {
      OccupiedAfterWrite(slots, k, Vacant);
      assert Holds(slots, who);
      forall j | 0 <= j < |slots| && j != k ensures after[j] == slots[j] && (slots[j].Held? ==> slots[j].who != who) {
        if k < j && slots[j].Held? { assert slots[k].who != slots[j].who; }
      }
    } else {
      assert after == slots;
    }
  }
}
