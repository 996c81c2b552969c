/** `hg_store_load` and the record building of `hg_store_save` (`asm/store.asm`), on a session block and its
    inventory. */
module Store {
  import opened CStrings
  import opened Sessions
  import opened Bags
  import opened StoreRecord

  ghost function CharacterOf(s: Session, bag: Bag): Character
    requires bag.Sized()
    reads s, bag, bag.slots
  {
    Character(s.name, s.race, s.faction, s.position, s.title, s.weapon, s.room, s.hp, s.maxHp, s.level, s.xp, s.gold,
              s.morality, s.addiction, s.ashsworn, s.strayed, s.redeemed, s.resisted, s.secretHash,
              bag.slots[..], bag.count)
  }

  /** The inventory loop of the save: the slots counted as in use, without the empty ones. */
  method CollectItems(bag: Bag) returns (items: seq<string>)
    requires bag.Sized()
    ensures items == NonEmpty(bag.slots[..][..Visited(bag.count)])
  {
    items := [];
    var i := 0;
    ghost var slots := bag.slots[..];
    while (bag.count < 0 || i < bag.count) && i < SLOTS
      invariant 0 <= i <= Visited(bag.count) && items == NonEmpty(slots[..i])
      decreases SLOTS - i
    {
      assert slots[..i + 1][..i] == slots[..i];
      if bag.slots[i] != "" {
        items := items + [bag.slots[i]];
      }
      i := i + 1;
    }
  }

  /** The inventory loop of the load: clear all slots, then take strings until sixteen are in place. */
  method LoadItems(bag: Bag, items: seq<JVal>)
    requires bag.Sized()
    modifies bag, bag.slots
    ensures bag.slots[..] == Filled(StoreRecord.Taken(items)) && bag.count == |StoreRecord.Taken(items)|
  {
    for k := 0 to SLOTS
      invariant forall j :: 0 <= j < k ==> bag.slots[j] == ""
    {
      bag.slots[k] := "";
    }
    var n, i := 0, 0;
    while i < |items| && n < SLOTS
      invariant 0 <= i <= |items| && n == |StoreRecord.Taken(items[..i])|
      invariant bag.slots[..] == Filled(StoreRecord.Taken(items[..i]))
    {
      assert items[..i + 1][..i] == items[..i];
      ghost var before := StoreRecord.Taken(items[..i]);
      if items[i].JStr? {
        bag.slots[n] := CopyCap(items[i].s, SLOT_SIZE);
        assert bag.slots[..] == Filled(before)[n := CopyCap(items[i].s, SLOT_SIZE)];
        assert Filled(before + [CopyCap(items[i].s, SLOT_SIZE)]) == Filled(before)[n := CopyCap(items[i].s, SLOT_SIZE)];
        n := n + 1;
      }
      i := i + 1;
    }
    TakenStops(items, i);
    bag.count := n;
  }

  /** Once sixteen items are in place, or none is left, the rest of the list does not matter. */
  lemma {:induction false} TakenStops(items: seq<JVal>, i: nat)
    requires i <= |items| && (i == |items| || |StoreRecord.Taken(items[..i])| == SLOTS)
    ensures StoreRecord.Taken(items) == StoreRecord.Taken(items[..i])
  {
    if i < |items| {
      assert items[..|items| - 1][..i] == items[..i];
      TakenStops(items[..|items| - 1], i);
    } else {
      assert items[..i] == items;
    }
  }

  /** What opening and reading the file came to: it did not open, whether it exists or not; it opened but could not be
      measured or read; or its size and what the parser made of it. */
  datatype FileState = NotOpened | Unreadable | Readable(size: int, parsed: Parse)
  datatype Parse = Malformed | Tree(t: StoreRecord.Tree)

  method LoadLooks(s: Session, t: StoreRecord.Tree, ghost bag: Bag)
    requires bag.Sized()
    modifies s`race, s`faction, s`position, s`title, s`weapon
    ensures CharacterOf(s, bag) == WithLooks(old(CharacterOf(s, bag)), t)
  {
    s.race := LoadStr(t, KRace, s.race, 16);
    s.faction := LoadStr(t, KFaction, s.faction, 16);
    s.position := LoadStr(t, KPosition, s.position, 16);
    s.title := LoadStr(t, KTitle, s.title, 48);
    s.weapon := LoadStr(t, KWeapon, s.weapon, 16);
  }

  method LoadSecret(s: Session, t: StoreRecord.Tree, ghost bag: Bag)
    requires bag.Sized()
    modifies s`secretHash
    ensures CharacterOf(s, bag) == WithSecret(old(CharacterOf(s, bag)), t)
  {
    s.secretHash := "";
    s.secretHash := LoadStr(t, KSecretHash, s.secretHash, 72);
  }

  method LoadTexts(s: Session, t: StoreRecord.Tree, ghost bag: Bag)
    requires bag.Sized()
    modifies s`race, s`faction, s`position, s`title, s`weapon, s`secretHash
    ensures CharacterOf(s, bag) == WithTexts(old(CharacterOf(s, bag)), t)
  {
    LoadLooks(s, t, bag);
    LoadSecret(s, t, bag);
  }

  method LoadVitals(s: Session, t: StoreRecord.Tree, ghost bag: Bag)
    requires bag.Sized()
    modifies s`room, s`hp, s`maxHp, s`level
    ensures CharacterOf(s, bag) == WithVitals(old(CharacterOf(s, bag)), t)
  {
    s.room := LoadNum(t, KRoom, s.room);
    s.hp := LoadNum(t, KHp, s.hp);
    s.maxHp := LoadNum(t, KMaxHp, s.maxHp);
    s.level := LoadNum(t, KLevel, s.level);
  }

  method LoadScores(s: Session, t: StoreRecord.Tree, ghost bag: Bag)
    requires bag.Sized()
    modifies s`xp, s`gold, s`morality, s`addiction
    ensures CharacterOf(s, bag) == WithScores(old(CharacterOf(s, bag)), t)
  {
    s.xp := LoadNum(t, KXp, s.xp);
    s.gold := LoadNum(t, KGold, s.gold);
    s.morality := LoadNum(t, KMorality, s.morality);
    s.addiction := LoadNum(t, KAddiction, s.addiction);
  }

  method LoadNumbers(s: Session, t: StoreRecord.Tree, ghost bag: Bag)
    requires bag.Sized()
    modifies s`room, s`hp, s`maxHp, s`level, s`xp, s`gold, s`morality, s`addiction
    ensures CharacterOf(s, bag) == WithNumbers(old(CharacterOf(s, bag)), t)
  {
    LoadVitals(s, t, bag);
    LoadScores(s, t, bag);
  }

  method LoadFlags(s: Session, t: StoreRecord.Tree, ghost bag: Bag)
    requires bag.Sized()
    modifies s`ashsworn, s`strayed, s`redeemed, s`resisted
    ensures CharacterOf(s, bag) == WithFlags(old(CharacterOf(s, bag)), t)
  {
    s.ashsworn := LoadBool(t, KAshsworn, s.ashsworn);
    s.strayed := LoadBool(t, KStrayed, s.strayed);
    s.redeemed := LoadBool(t, KRedeemed, s.redeemed);
    s.resisted := LoadBool(t, KResisted, s.resisted);
  }

  /** A parsed record, key by key. */
  method LoadRecord(s: Session, bag: Bag, t: StoreRecord.Tree)
    requires bag.Sized()
    modifies s`race, s`faction, s`position, s`title, s`weapon, s`room, s`hp, s`maxHp, s`level, s`xp, s`gold
    modifies s`morality, s`addiction, s`ashsworn, s`strayed, s`redeemed, s`resisted, s`secretHash, bag, bag.slots
    ensures CharacterOf(s, bag) == Loaded(old(CharacterOf(s, bag)), t)
  {
    LoadTexts(s, t, bag);
    LoadNumbers(s, t, bag);
    LoadFlags(s, t, bag);
    LoadItems(bag, StoreRecord.Items(t));
  }

  /** -1 for a bad name, an unreadable, over- or undersized or malformed file; 0 for one that does not open; 1 for a
      record. */
  method StoreLoad(s: Session, bag: Bag, path: Path, file: FileState) returns (rc: int)
    requires bag.Sized()
    modifies s`race, s`faction, s`position, s`title, s`weapon, s`room, s`hp, s`maxHp, s`level, s`xp, s`gold
    modifies s`morality, s`addiction, s`ashsworn, s`strayed, s`redeemed, s`resisted, s`secretHash, bag, bag.slots
    ensures rc == if path.NoPath? then -1
                  else if file.NotOpened? then 0
                  else if file.Readable? && 2 <= file.size <= 65536 && file.parsed.Tree? then 1 else -1
    ensures CharacterOf(s, bag) ==
            if rc == 1 then Loaded(old(CharacterOf(s, bag)), file.parsed.t) else old(CharacterOf(s, bag))
  {
    if path.NoPath? {
      return -1;
    }
    if file.NotOpened? {
      return 0;
    }
    if file.Unreadable? || file.size < 2 || file.size > 65536 || file.parsed.Malformed? {
      return -1;
    }
    LoadRecord(s, bag, file.parsed.t);
    rc := 1;
  }
}
