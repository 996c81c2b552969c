/** A session's inventory (`asm/social.asm`): sixteen slots of at most fifteen characters, filled from the front, and
    the `give` command between two of them. */
module Bags {
  import opened CStrings

  const SLOTS := 16
  const SLOT_SIZE := 16

  /** The first item that starts with `arg`, in any case; an item is also found by its full name. */
  function FindIn(items: seq<string>, arg: string, i: nat := 0): (k: int)
    requires i <= |items|
    ensures k == -1 || i <= k < |items|
    ensures k >= 0 ==> StartsNoCase(items[k], arg) && forall j :: i <= j < k ==> !StartsNoCase(items[j], arg)
    ensures k == -1 ==> arg == "" || forall j :: i <= j < |items| ==> !StartsNoCase(items[j], arg)
    decreases |items| - i
  {
    if arg == "" || i == |items| then -1 else if StartsNoCase(items[i], arg) then i else FindIn(items, arg, i + 1)
  }

  function Without(items: seq<string>, k: nat): seq<string>
    requires k < |items|
  {
    items[..k] + items[k + 1..]
  }

  class Bag {
    const slots: array<string>
    var count: int

    ghost predicate Sized()
      reads this
    {
      slots.Length == SLOTS
    }

    /** Items first, empty slots after them, every item within its slot. */
    ghost predicate Compact()
      reads this, slots
    {
      Sized() && 0 <= count <= SLOTS &&
      (forall i :: 0 <= i < count ==> slots[i] != "" && |slots[i]| < SLOT_SIZE) &&
      (forall i :: count <= i < SLOTS ==> slots[i] == "")
    }

    ghost function Items(): seq<string>
      requires Compact()
      reads this, slots
    {
      slots[..count]
    }

    /** A new session carries a shiv. */
    constructor ()
      ensures Compact() && Items() == ["shiv"] && fresh(slots)
    {
      slots := new string[SLOTS](i => if i == 0 then "shiv" else "");
      count := 1;
    }

    /** `inv_add_internal`. */
    method Add(id: string) returns (ok: bool)
      requires Compact()
      modifies this, slots
      ensures Compact() && ok == (id != "" && old(count) < SLOTS)
      ensures Items() == if ok then old(Items()) + [CopyCap(id, SLOT_SIZE)] else old(Items())
    {
      if id == "" || count < 0 || count >= SLOTS {
        return false;
      }
      slots[count] := CopyCap(id, SLOT_SIZE);
      count := count + 1;
      ok := true;
    }

    /** `inv_find_slot`. */
    method Find(arg: string) returns (k: int)
      requires Compact()
      ensures k == FindIn(Items(), arg)
    {
      if arg == "" {
        return -1;
      }
      k := 0;
      while k < count
        invariant 0 <= k <= count && FindIn(Items(), arg) == FindIn(Items(), arg, k)
      {
        if EqNoCase(slots[k], arg) || StartsNoCase(slots[k], arg) {
          assert EqNoCase(slots[k], arg) ==> slots[k][..|arg|] == slots[k] by {
            if EqNoCase(slots[k], arg) { assert |Lower(slots[k])| == |slots[k]| && |Lower(arg)| == |arg|; }
          }
          return;
        }
        k := k + 1;
      }
      k := -1;
    }

    /** `inv_remove_slot`: move the later items down and clear the slot that falls free. */
    method Remove(k: int) returns (ok: bool)
      requires Compact()
      modifies this, slots
      ensures Compact() && ok == (0 <= k < old(count))
      ensures Items() == if ok then Without(old(Items()), k) else old(Items())
    {
      if k < 0 || k >= count {
        return false;
      }
      var i := k;
      while i + 1 < count
        invariant k <= i < count && count == old(count)
        invariant forall j :: 0 <= j < SLOTS ==>
          slots[j] == if k <= j < i then old(slots[j + 1]) else old(slots[j])
      {
        slots[i] := slots[i + 1];
        i := i + 1;
      }
      count := count - 1;
      slots[count] := "";
      ok := true;
    }
  }

  /** What a hand-over does to the two inventories; the answer of the add is ignored. */
  function Handed(giver: seq<string>, taker: seq<string>, k: nat): (seq<string>, seq<string>)
    requires k < |giver|
  {
    (Without(giver, k), if |taker| < SLOTS then taker + [giver[k]] else taker)
  }

  /** The items that stay keep their order. */
  lemma WithoutKeepsOrder(items: seq<string>, k: nat, i: nat)
    requires k < |items| && i < |items| - 1
    ensures |Without(items, k)| == |items| - 1 && Without(items, k)[i] == items[if i < k then i else i + 1]
  {
  }

  lemma WithoutMultiset(items: seq<string>, k: nat)
    requires k < |items|
    ensures multiset(items) == multiset(Without(items, k)) + multiset{items[k]}
  {
    assert items == items[..k] + ([items[k]] + items[k + 1..]);
  }

  /** A hand-over keeps the two players' items together exactly when the taker has a free slot; otherwise the item
      is gone. */
  lemma HandOverConservesExactlyWhen(giver: seq<string>, taker: seq<string>, k: nat)
    requires k < |giver| <= SLOTS && |taker| <= SLOTS
    ensures var (g, t) := Handed(giver, taker, k);
            && |g| == |giver| - 1 && |t| <= SLOTS
            && (multiset(g) + multiset(t) == multiset(giver) + multiset(taker) <==> |taker| < 16)
            && (|taker| == 16 ==>
                  multiset(g) + multiset(t) + multiset{giver[k]} == multiset(giver) + multiset(taker))
  {
    WithoutMultiset(giver, k);
    var (g, t) := Handed(giver, taker, k);
    assert |multiset(g) + multiset(t)| == |g| + |t|;
    assert |multiset(giver) + multiset(taker)| == |giver| + |taker|;
  }

  /** `hg_cmd_give`, once the item words and the other player are known. */
  method Give(giver: Bag, taker: Bag, item: string) returns (done: bool)
    requires giver != taker && giver.slots != taker.slots && giver.Compact() && taker.Compact()
    modifies giver, giver.slots, taker, taker.slots
    ensures giver.Compact() && taker.Compact()
    ensures var k := FindIn(old(giver.Items()), item);
            done == (k >= 0) &&
            (giver.Items(), taker.Items()) ==
              if k < 0 then (old(giver.Items()), old(taker.Items()))
              else Handed(old(giver.Items()), old(taker.Items()), k)
    ensures old(taker.count) < SLOTS ==>
      multiset(giver.Items()) + multiset(taker.Items()) ==
      multiset(old(giver.Items())) + multiset(old(taker.Items()))
  {
    var k := giver.Find(item);
    if k < 0 {
      return false;
    }
    var id := CopyCap(giver.slots[k], SLOT_SIZE);
    HandOverConservesExactlyWhen(giver.Items(), taker.Items(), k);
    var removed := giver.Remove(k);
    var added := taker.Add(id);
    done := true;
  }
}
