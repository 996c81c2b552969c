/** What a character file holds: `hg_store_save` up to the printed text, and `hg_store_load` (`asm/store.asm`). The
    JSON tree is what the cJSON library builds from the one and parses back for the other. */
module StoreRecord {
  import opened CStrings
  import opened Picks
  import opened Json
  import opened Bags

  datatype Key =
    | KName | KRace | KFaction | KPosition | KTitle | KWeapon
    | KRoom | KHp | KMaxHp | KLevel | KXp | KGold | KMorality | KAddiction
    | KAshsworn | KStrayed | KRedeemed | KResisted | KSecretHash | KInventory

  datatype JVal = JStr(s: string) | JNum(n: int) | JBool(b: bool) | JArr(items: seq<JVal>)

  datatype Member = Missing | Val(v: JVal)

  /** A JSON object, by the keys this program knows. */
  type Tree = Key -> Member

  /** The persisted part of a session, with its inventory slots and their count. */
  datatype Character = Character(
    name: string, race: string, faction: string, position: string, title: string, weapon: string,
    room: int, hp: int, maxHp: int, level: int, xp: int, gold: int, morality: int, addiction: int,
    ashsworn: bool, strayed: bool, redeemed: bool, resisted: bool, secretHash: string,
    slots: seq<string>, count: int)

  // ---- Numbers pass through doubles --------------------------------------------------------------------------

  const TWO53 := 0x20_0000_0000_0000

  /** The spacing of doubles at magnitude `m`. */
  function Ulp(m: nat, u: nat): (r: nat)
    requires 0 < u
    ensures 0 < r && m <= TWO53 * r && u <= r && (m <= TWO53 * u ==> r == u)
    decreases m - u
  {
    if m <= TWO53 * u then u else Ulp(m, 2 * u)
  }

  /** The double nearest to an integer, ties to the even neighbour. */
  function ToDouble(n: int): int {
    var m := if n < 0 then -n else n;
    var u := Ulp(m, 1);
    var q, r := m / u, m % u;
    var k := if 2 * r < u || (2 * r == u && q % 2 == 0) then q * u else (q + 1) * u;
    if n < 0 then -k else k
  }

  const DOUBLES: int -> int := n => ToDouble(n)

  predicate Exact(n: int) { ToDouble(n) == n }

  /** Every number up to 2^53 in size survives; the next one does not. */
  lemma SmallNumbersAreExact(n: int)
    requires -TWO53 <= n <= TWO53
    ensures Exact(n) && !Exact(TWO53 + 1)
  {
    assert Ulp(TWO53 + 1, 1) == Ulp(TWO53 + 1, 2) == 2;
  }

  // ---- Saving ------------------------------------------------------------------------------------------------

  /** How many slots the save loop visits: the count compared as an unsigned number, and no more than sixteen. */
  function Visited(count: int): nat { if 0 <= count < SLOTS then count else SLOTS }

  function NonEmpty(slots: seq<string>): seq<string> {
    if slots == [] then []
    else if slots[|slots| - 1] == "" then NonEmpty(slots[..|slots| - 1])
    else NonEmpty(slots[..|slots| - 1]) + [slots[|slots| - 1]]
  }

  function Strings(ss: seq<string>): seq<JVal> { seq(|ss|, i requires 0 <= i < |ss| => JStr(ss[i])) }

  /** What a key is saved as, with `d` as the passage of a number through a double. */
  function ValueFor(c: Character, d: int -> int, k: Key): JVal
    requires |c.slots| == SLOTS
  {
    match k
    case KName => JStr(c.name)
    case KRace => JStr(c.race)
    case KFaction => JStr(c.faction)
    case KPosition => JStr(c.position)
    case KTitle => JStr(c.title)
    case KWeapon => JStr(c.weapon)
    case KRoom => JNum(d(c.room))
    case KHp => JNum(d(c.hp))
    case KMaxHp => JNum(d(c.maxHp))
    case KLevel => JNum(d(c.level))
    case KXp => JNum(d(c.xp))
    case KGold => JNum(d(c.gold))
    case KMorality => JNum(d(c.morality))
    case KAddiction => JNum(d(c.addiction))
    case KAshsworn => JBool(c.ashsworn)
    case KStrayed => JBool(c.strayed)
    case KRedeemed => JBool(c.redeemed)
    case KResisted => JBool(c.resisted)
    case KSecretHash => JStr(c.secretHash)
    case KInventory => JArr(Strings(NonEmpty(c.slots[..Visited(c.count)])))
  }

  function SavedWith(c: Character, d: int -> int): Tree
    requires |c.slots| == SLOTS
  {
    (k: Key) => Val(ValueFor(c, d, k))
  }

  function Saved(c: Character): Tree
    requires |c.slots| == SLOTS
  {
    SavedWith(c, DOUBLES)
  }

  // ---- Loading -----------------------------------------------------------------------------------------------

  const NOT_A_NUMBER: int := -0x8000_0000_0000_0000

  /** A double back to 64 bits: what does not fit, like what is no number, becomes the smallest integer. */
  function ToInt64(n: int): int { if NOT_A_NUMBER <= n < -NOT_A_NUMBER then n else NOT_A_NUMBER }

  function LoadStr(t: Tree, k: Key, own: string, cap: nat): string
    requires cap > 0
  {
    if t(k).Val? && t(k).v.JStr? then CopyCap(t(k).v.s, cap) else own
  }

  function LoadNum(t: Tree, k: Key, own: int): int {
    if t(k).Missing? then own else if t(k).v.JNum? then ToInt64(t(k).v.n) else NOT_A_NUMBER
  }

  function LoadBool(t: Tree, k: Key, own: bool): bool { if t(k).Missing? then own else t(k).v == JBool(true) }

  /** The strings among the first items, cut to a slot each, until sixteen have been taken. */
  function Taken(items: seq<JVal>): (r: seq<string>)
    ensures |r| <= SLOTS && |r| <= |items|
  {
    if items == [] then []
    else
      var before, last := Taken(items[..|items| - 1]), items[|items| - 1];
      if last.JStr? && |before| < SLOTS then before + [CopyCap(last.s, SLOT_SIZE)] else before
  }

  function Items(t: Tree): seq<JVal> {
    if t(KInventory).Val? && t(KInventory).v.JArr? then t(KInventory).v.items else []
  }

  function Filled(items: seq<string>): (r: seq<string>)
    requires |items| <= SLOTS
    ensures |r| == SLOTS
  {
    items + seq(SLOTS - |items|, _ => "")
  }

  function WithLooks(c: Character, t: Tree): Character {
    c.(race := LoadStr(t, KRace, c.race, 16), faction := LoadStr(t, KFaction, c.faction, 16),
       position := LoadStr(t, KPosition, c.position, 16), title := LoadStr(t, KTitle, c.title, 48),
       weapon := LoadStr(t, KWeapon, c.weapon, 16))
  }

  function WithSecret(c: Character, t: Tree): Character { c.(secretHash := LoadStr(t, KSecretHash, "", 72)) }

  function WithTexts(c: Character, t: Tree): Character { WithSecret(WithLooks(c, t), t) }

  function WithVitals(c: Character, t: Tree): Character {
    c.(room := LoadNum(t, KRoom, c.room), hp := LoadNum(t, KHp, c.hp), maxHp := LoadNum(t, KMaxHp, c.maxHp),
       level := LoadNum(t, KLevel, c.level))
  }

  function WithScores(c: Character, t: Tree): Character {
    c.(xp := LoadNum(t, KXp, c.xp), gold := LoadNum(t, KGold, c.gold), morality := LoadNum(t, KMorality, c.morality),
       addiction := LoadNum(t, KAddiction, c.addiction))
  }

  function WithNumbers(c: Character, t: Tree): Character { WithScores(WithVitals(c, t), t) }

  function WithFlags(c: Character, t: Tree): Character {
    c.(ashsworn := LoadBool(t, KAshsworn, c.ashsworn), strayed := LoadBool(t, KStrayed, c.strayed),
       redeemed := LoadBool(t, KRedeemed, c.redeemed), resisted := LoadBool(t, KResisted, c.resisted))
  }

  function WithItems(c: Character, items: seq<string>): Character
    requires |items| <= SLOTS
  {
    c.(slots := Filled(items), count := |items|)
  }

  function Loaded(own: Character, t: Tree): Character {
    WithItems(WithFlags(WithNumbers(WithTexts(own, t), t), t), Taken(Items(t)))
  }

  // ---- Load undoes save --------------------------------------------------------------------------------------

  /** The texts fit the fields they live in. */
  predicate Fits(c: Character) {
    |c.name| <= 32 && |c.race| < 16 && |c.faction| < 16 && |c.position| < 16 && |c.title| < 48 && |c.weapon| < 16 &&
    |c.secretHash| < 72 && |c.slots| == SLOTS && forall i :: 0 <= i < SLOTS ==> |c.slots[i]| < SLOT_SIZE
  }

  /** The character with every number as it comes back through the file. */
  function Through(c: Character, d: int -> int): Character {
    c.(room := ToInt64(d(c.room)), hp := ToInt64(d(c.hp)), maxHp := ToInt64(d(c.maxHp)), level := ToInt64(d(c.level)),
       xp := ToInt64(d(c.xp)), gold := ToInt64(d(c.gold)), morality := ToInt64(d(c.morality)),
       addiction := ToInt64(d(c.addiction)))
  }

  function Numbers(c: Character): seq<int> { [c.room, c.hp, c.maxHp, c.level, c.xp, c.gold, c.morality, c.addiction] }

  predicate Keeps(d: int -> int, c: Character) { forall n :: n in Numbers(c) ==> ToInt64(d(n)) == n }

  /** Items first, empty slots after them. */
  predicate CompactSlots(slots: seq<string>, count: int) {
    |slots| == SLOTS && 0 <= count <= SLOTS &&
    (forall i :: 0 <= i < count ==> slots[i] != "") && forall i :: count <= i < SLOTS ==> slots[i] == ""
  }

  lemma {:induction false} NonEmptyItems(slots: seq<string>)
    ensures forall i :: 0 <= i < |NonEmpty(slots)| ==> NonEmpty(slots)[i] != "" && NonEmpty(slots)[i] in slots
    ensures |NonEmpty(slots)| <= |slots|
    ensures NonEmpty(slots) == slots <==> forall i :: 0 <= i < |slots| ==> slots[i] != ""
  {
    if slots != [] {
      var init := slots[..|slots| - 1];
      NonEmptyItems(init);
      assert slots == init + [slots[|slots| - 1]];
    }
  }

  /** The items kept are exactly the non-empty slots, in order. */
  lemma {:induction false} NonEmptyIsExact(slots: seq<string>) returns (at: seq<nat>)
    ensures IsPick(slots, at, NonEmpty(slots))
    ensures forall i :: 0 <= i < |slots| ==> (i in at <==> slots[i] != "")
  {
    if slots == [] {
      at := [];
    } else {
      at := NonEmptyIsExact(slots[..|slots| - 1]);
      PickLast(slots, at, NonEmpty(slots[..|slots| - 1]));
      if slots[|slots| - 1] != "" { at := at + [|slots| - 1]; }
    }
  }

  /** A count out of range, below zero as well as above, makes the save keep the items of every slot. */
  lemma MiscountKeepsAll(slots: seq<string>, count: int)
    requires |slots| == 16 && (count < 0 || count > 16)
    ensures NonEmpty(slots[..Visited(count)]) == NonEmpty(slots)
  {
    assert slots[..16] == slots;
  }

  lemma {:induction false} TakenStrings(ss: seq<string>)
    requires |ss| <= SLOTS && forall i :: 0 <= i < |ss| ==> |ss[i]| < SLOT_SIZE
    ensures Taken(Strings(ss)) == ss
  {
    if ss != [] {
      var init := ss[..|ss| - 1];
      assert Strings(ss)[..|ss| - 1] == Strings(init);
      TakenStrings(init);
    }
  }

  lemma KeptItemsFit(slots: seq<string>, count: int)
    requires |slots| == SLOTS && forall i :: 0 <= i < SLOTS ==> |slots[i]| < SLOT_SIZE
    ensures var kept := NonEmpty(slots[..Visited(count)]);
            |kept| <= SLOTS && forall i :: 0 <= i < |kept| ==> |kept[i]| < SLOT_SIZE
  {
    var visited := slots[..Visited(count)];
    NonEmptyItems(visited);
    forall i | 0 <= i < |NonEmpty(visited)| ensures |NonEmpty(visited)[i]| < SLOT_SIZE {
      assert NonEmpty(visited)[i] in visited;
    }
  }

  lemma SavedItemsComeBack(slots: seq<string>, count: int)
    requires |slots| == SLOTS && forall i :: 0 <= i < SLOTS ==> |slots[i]| < SLOT_SIZE
    ensures var kept := NonEmpty(slots[..Visited(count)]); |kept| <= SLOTS && Taken(Strings(kept)) == kept
  {
    KeptItemsFit(slots, count);
    TakenStrings(NonEmpty(slots[..Visited(count)]));
  }

  /** The items that were kept refill the slots as they were exactly when these were compact. */
  lemma RefilledExactlyWhen(slots: seq<string>, count: int, kept: seq<string>)
    requires |slots| == SLOTS && kept == NonEmpty(slots[..Visited(count)]) && |kept| <= SLOTS
    ensures Filled(kept) == slots && |kept| == count <==> CompactSlots(slots, count)
  {
    var visited := slots[..Visited(count)];
    NonEmptyItems(visited);
    if CompactSlots(slots, count) {
      assert kept == visited;
      assert Filled(kept) == slots;
    }
  }

  lemma TextsComeBack(c: Character, d: int -> int, own: Character)
    requires Fits(c)
    ensures WithTexts(own, SavedWith(c, d)) ==
            own.(race := c.race, faction := c.faction, position := c.position, title := c.title, weapon := c.weapon,
                 secretHash := c.secretHash)
  {
  }

  lemma NumbersComeBack(c: Character, d: int -> int, own: Character)
    requires Fits(c)
    ensures var r := Through(c, d);
            WithNumbers(own, SavedWith(c, d)) ==
            own.(room := r.room, hp := r.hp, maxHp := r.maxHp, level := r.level, xp := r.xp, gold := r.gold,
                 morality := r.morality, addiction := r.addiction)
  {
  }

  lemma FlagsComeBack(c: Character, d: int -> int, own: Character)
    requires Fits(c)
    ensures WithFlags(own, SavedWith(c, d)) ==
            own.(ashsworn := c.ashsworn, strayed := c.strayed, redeemed := c.redeemed, resisted := c.resisted)
  {
  }

  lemma FieldsComeBack(c: Character, own: Character, t: Tree, d: int -> int)
    requires Fits(c) && own.name == c.name && t == SavedWith(c, d)
    ensures Loaded(own, t) == WithItems(Through(c, d), Taken(Items(t)))
  {
    var texts := WithTexts(own, t);
    var numbers := WithNumbers(texts, t);
    TextsComeBack(c, d, own);
    NumbersComeBack(c, d, texts);
    FlagsComeBack(c, d, numbers);
  }

  /** Loading what was saved restores every field of a session of that name, and the inventory in order, exactly
      when the inventory was compact and the file keeps every number; whatever the loading session held before. */
  lemma LoadUndoesSaveExactlyWhen(c: Character, own: Character, d: int -> int)
    requires Fits(c) && own.name == c.name
    ensures Loaded(own, SavedWith(c, d)) == c <==> CompactSlots(c.slots, c.count) && Keeps(d, c)
  {
    var t := SavedWith(c, d);
    FieldsComeBack(c, own, t, d);
    var kept := NonEmpty(c.slots[..Visited(c.count)]);
    SavedItemsComeBack(c.slots, c.count);
    RefilledExactlyWhen(c.slots, c.count, kept);
    ItemsOfSaved(c, d, kept);
    SameCharacter(c, d, kept);
  }

  lemma ItemsOfSaved(c: Character, d: int -> int, kept: seq<string>)
    requires |c.slots| == SLOTS && kept == NonEmpty(c.slots[..Visited(c.count)])
    ensures Items(SavedWith(c, d)) == Strings(kept)
  {
    assert ValueFor(c, d, KInventory) == JArr(Strings(kept));
  }

  lemma SameCharacter(c: Character, d: int -> int, kept: seq<string>)
    requires |kept| <= SLOTS
    ensures WithItems(Through(c, d), kept) == c <==> Keeps(d, c) && Filled(kept) == c.slots && |kept| == c.count
  {
    SameNumbers(c, d);
    var r := Through(c, d);
    assert WithItems(r, kept).(slots := c.slots, count := c.count) == r;
  }

  lemma SameNumbers(c: Character, d: int -> int)
    ensures Through(c, d) == c <==> Keeps(d, c)
  {
  }

  /** So it is with the doubles of the file, for numbers of at most 2^53 in size. */
  lemma LoadUndoesSave(c: Character, own: Character)
    requires Fits(c) && own.name == c.name && CompactSlots(c.slots, c.count)
    requires forall n :: n in Numbers(c) ==> -TWO53 <= n <= TWO53
    ensures Loaded(own, Saved(c)) == c
  {
    DoublesKeep(c);
    LoadUndoesSaveExactlyWhen(c, own, DOUBLES);
  }

  lemma DoublesKeep(c: Character)
    requires forall n :: n in Numbers(c) ==> -TWO53 <= n <= TWO53
    ensures Keeps(DOUBLES, c)
  {
    forall n | n in Numbers(c) ensures ToInt64(DOUBLES(n)) == n { SmallNumbersAreExact(n); }
  }

  /** Whatever else a file holds, a key it does not have leaves the session's own value, except that the secret and the
      inventory are cleared first. */
  lemma AbsentKeysKeepOwnValues(own: Character, t: Tree)
    ensures var r := Loaded(own, t);
            && r.name == own.name
            && (t(KRace).Missing? ==> r.race == own.race) && (t(KFaction).Missing? ==> r.faction == own.faction)
            && (t(KPosition).Missing? ==> r.position == own.position)
            && (t(KTitle).Missing? ==> r.title == own.title) && (t(KWeapon).Missing? ==> r.weapon == own.weapon)
            && (t(KRoom).Missing? ==> r.room == own.room) && (t(KHp).Missing? ==> r.hp == own.hp)
            && (t(KMaxHp).Missing? ==> r.maxHp == own.maxHp) && (t(KLevel).Missing? ==> r.level == own.level)
            && (t(KXp).Missing? ==> r.xp == own.xp) && (t(KGold).Missing? ==> r.gold == own.gold)
            && (t(KMorality).Missing? ==> r.morality == own.morality)
            && (t(KAddiction).Missing? ==> r.addiction == own.addiction)
            && (t(KAshsworn).Missing? ==> r.ashsworn == own.ashsworn)
            && (t(KStrayed).Missing? ==> r.strayed == own.strayed)
            && (t(KRedeemed).Missing? ==> r.redeemed == own.redeemed)
            && (t(KResisted).Missing? ==> r.resisted == own.resisted)
            && (t(KSecretHash).Missing? ==> r.secretHash == "")
            && (t(KInventory).Missing? ==> r.count == 0 && r.slots == Filled([]))
    ensures (forall k :: t(k).Missing?) ==> Loaded(own, t) == own.(secretHash := "", slots := Filled([]), count := 0)
  {
  }

  /** Texts of a file are cut to their fields, and only strings are taken. */
  lemma LoadedTextsFit(own: Character, t: Tree)
    ensures var r := Loaded(own, t);
            && (TextAt(t, KRace).Val? ==> r.race == Cut(TextAt(t, KRace).v.s, 15))
            && (TextAt(t, KFaction).Val? ==> r.faction == Cut(TextAt(t, KFaction).v.s, 15))
            && (TextAt(t, KPosition).Val? ==> r.position == Cut(TextAt(t, KPosition).v.s, 15))
            && (TextAt(t, KTitle).Val? ==> r.title == Cut(TextAt(t, KTitle).v.s, 47))
            && (TextAt(t, KWeapon).Val? ==> r.weapon == Cut(TextAt(t, KWeapon).v.s, 15))
            && (TextAt(t, KSecretHash).Val? ==> r.secretHash == Cut(TextAt(t, KSecretHash).v.s, 71))
  {
  }

  function Cut(s: string, max: nat): string { if |s| <= max then s else s[..max] }

  /** The string under a key, if there is one. */
  function TextAt(t: Tree, k: Key): (r: Member)
    ensures r.Val? ==> r.v.JStr?
  {
    if t(k).Val? && t(k).v.JStr? then t(k) else Missing
  }

  /** In the file every key holds its own field: texts, */
  lemma KeysHoldTexts(c: Character, d: int -> int)
    requires |c.slots| == SLOTS
    ensures var t := SavedWith(c, d);
            && t(KName) == Val(JStr(c.name)) && t(KRace) == Val(JStr(c.race)) && t(KFaction) == Val(JStr(c.faction))
            && t(KPosition) == Val(JStr(c.position)) && t(KTitle) == Val(JStr(c.title))
            && t(KWeapon) == Val(JStr(c.weapon)) && t(KSecretHash) == Val(JStr(c.secretHash))
  {
  }

  /** numbers, */
  lemma KeysHoldNumbers(c: Character, d: int -> int)
    requires |c.slots| == SLOTS
    ensures var t := SavedWith(c, d);
            && t(KRoom) == Val(JNum(d(c.room))) && t(KHp) == Val(JNum(d(c.hp))) && t(KMaxHp) == Val(JNum(d(c.maxHp)))
            && t(KLevel) == Val(JNum(d(c.level))) && t(KXp) == Val(JNum(d(c.xp))) && t(KGold) == Val(JNum(d(c.gold)))
            && t(KMorality) == Val(JNum(d(c.morality))) && t(KAddiction) == Val(JNum(d(c.addiction)))
  {
  }

  /** and flags. */
  lemma KeysHoldFlags(c: Character, d: int -> int)
    requires |c.slots| == SLOTS
    ensures var t := SavedWith(c, d);
            && t(KAshsworn) == Val(JBool(c.ashsworn)) && t(KStrayed) == Val(JBool(c.strayed))
            && t(KRedeemed) == Val(JBool(c.redeemed)) && t(KResisted) == Val(JBool(c.resisted))
  {
  }

  /** The items taken are strings of the list at `at`, cut to a slot, and no string before `end` was passed over. */
  ghost predicate TakenAt(items: seq<JVal>, r: seq<string>, at: seq<nat>, end: nat) {
    && |at| == |r| && Ascending(at)
    && (forall k :: 0 <= k < |at| ==> at[k] < |items| && items[at[k]].JStr? && r[k] == Cut(items[at[k]].s, 15))
    && forall i :: 0 <= i < end && i < |items| && items[i].JStr? ==> i in at
  }

  lemma TakenLast(items: seq<JVal>, last: JVal, r: seq<string>, at: seq<nat>, end: nat)
    requires TakenAt(items, r, at, end) && end <= |items|
    ensures TakenAt(items + [last], r, at, end)
    ensures end == |items| && !last.JStr? ==> TakenAt(items + [last], r, at, end + 1)
    ensures end == |items| && last.JStr? ==>
      TakenAt(items + [last], r + [Cut(last.s, 15)], at + [|items|], end + 1)
  {
    AscendingSnoc(at, |items|);
  }

  /** From any list the load takes the strings in order, each cut to a slot, and stops for want of room alone: what it
      has not looked at begins at `end`, and there is such a rest only when sixteen have been taken. */
  lemma {:induction false} TakenIsExact(items: seq<JVal>) returns (at: seq<nat>, end: nat)
    ensures TakenAt(items, Taken(items), at, end) && end <= |items| && (end == |items| || |Taken(items)| == 16)
  {
    if items == [] {
      at, end := [], 0;
    } else {
      var init, last := items[..|items| - 1], items[|items| - 1];
      at, end := TakenIsExact(init);
      TakenLast(init, last, Taken(init), at, end);
      assert items == init + [last];
      if |Taken(init)| < 16 {
        if last.JStr? { at := at + [|init|]; }
        end := end + 1;
      }
    }
  }

  // ---- The printed text --------------------------------------------------------------------------------------

  function KeyText(k: Key): string {
    match k
    case KName => "name" case KRace => "race" case KFaction => "faction" case KPosition => "position"
    case KTitle => "title" case KWeapon => "weapon" case KRoom => "roomIndex" case KHp => "hp" case KMaxHp => "maxHp"
    case KLevel => "level" case KXp => "xp" case KGold => "gold" case KMorality => "morality"
    case KAddiction => "addiction" case KAshsworn => "ashsworn" case KStrayed => "strayed"
    case KRedeemed => "redeemed" case KResisted => "resisted" case KSecretHash => "secretHash"
    case KInventory => "inventory"
  }

  const ORDER: seq<Key> := [KName, KRace, KFaction, KPosition, KTitle, KWeapon, KRoom, KHp, KMaxHp, KLevel, KXp, KGold,
                            KMorality, KAddiction, KAshsworn, KStrayed, KRedeemed, KResisted, KSecretHash, KInventory]

  function Comma(parts: seq<string>): string {
    if parts == [] then "" else if |parts| == 1 then parts[0]
    else Comma(parts[..|parts| - 1]) + "," + parts[|parts| - 1]
  }

  /** `cJSON_PrintUnformatted` on one value; `num` prints a number. */
  function PrintVal(v: JVal, num: int -> string): string {
    match v
    case JStr(s) => "\"" + Escape(s) + "\""
    case JNum(n) => num(n)
    case JBool(b) => if b then "true" else "false"
    case JArr(items) => "[" + Comma(seq(|items|, i requires 0 <= i < |items| => PrintVal(items[i], num))) + "]"
  }

  /** The whole record; keys the tree lacks print nothing. */
  function Printed(t: Tree, num: int -> string): string {
    "{" + Comma(seq(|ORDER|, i requires 0 <= i < |ORDER| => PrintMember(ORDER[i], t(ORDER[i]), num))) + "}"
  }

  function PrintMember(k: Key, m: Member, num: int -> string): string {
    match m
    case Missing => ""
    case Val(v) => "\"" + KeyText(k) + "\":" + PrintVal(v, num)
  }

  lemma {:induction false} CommaBound(parts: seq<string>, max: nat)
    requires forall i :: 0 <= i < |parts| ==> |parts[i]| <= max
    ensures |Comma(parts)| <= |parts| * (max + 1)
  {
    if |parts| > 1 { CommaBound(parts[..|parts| - 1], max); }
  }

  lemma InventoryBound(ss: seq<string>, num: int -> string)
    requires |ss| <= SLOTS && forall i :: 0 <= i < |ss| ==> |ss[i]| < SLOT_SIZE
    ensures |PrintVal(JArr(Strings(ss)), num)| <= 1490
  {
    var items := Strings(ss);
    var parts := seq(|items|, i requires 0 <= i < |items| => PrintVal(items[i], num));
    forall i | 0 <= i < |parts| ensures |parts[i]| <= 92 {
      assert parts[i] == "\"" + Escape(ss[i]) + "\"";
    }
    CommaBound(parts, 92);
    assert |parts| * 93 <= 16 * 93;
  }

  lemma ScalarBound(v: JVal, num: int -> string)
    requires !v.JArr? && (v.JStr? ==> |v.s| <= 72) && forall n :: |num(n)| <= 25
    ensures |PrintVal(v, num)| <= 1490
  {
  }

  lemma ScalarValue(c: Character, d: int -> int, k: Key)
    requires Fits(c) && k != KInventory
    ensures !ValueFor(c, d, k).JArr? && (ValueFor(c, d, k).JStr? ==> |ValueFor(c, d, k).s| <= 72)
  {
  }

  lemma ValueBound(c: Character, k: Key, d: int -> int, num: int -> string)
    requires Fits(c) && forall n :: |num(n)| <= 25
    ensures |PrintVal(SavedWith(c, d)(k).v, num)| <= 1490
  {
    if k == KInventory {
      KeptItemsFit(c.slots, c.count);
      InventoryBound(NonEmpty(c.slots[..Visited(c.count)]), num);
    } else {
      ScalarValue(c, d, k);
      ScalarBound(ValueFor(c, d, k), num);
    }
  }

  lemma KeyBound(k: Key)
    ensures |KeyText(k)| <= 10
  {
  }

  /** Every record that is saved passes the size gate of the load: at least 2 and at most 65536 bytes, however the
      numbers are printed in at most 25 characters. */
  lemma SavedRecordsPassTheGate(c: Character, d: int -> int, num: int -> string)
    requires Fits(c) && forall n :: |num(n)| <= 25
    ensures 2 <= |Printed(SavedWith(c, d), num)| <= 65536
  {
    var t := SavedWith(c, d);
    var parts := seq(|ORDER|, i requires 0 <= i < |ORDER| => PrintMember(ORDER[i], t(ORDER[i]), num));
    forall i | 0 <= i < |parts| ensures |parts[i]| <= 1503 {
      ValueBound(c, ORDER[i], d, num);
      KeyBound(ORDER[i]);
    }
    CommaBound(parts, 1503);
    assert |ORDER| == 20;
  }

  // ---- File names --------------------------------------------------------------------------------------------

  datatype Path = NoPath | At(path: string)

  /** `character_path`: the name in lower case under the character directory. */
  function CharacterPath(root: string, name: string, cap: nat): Path {
    var path := root + "/" + Lower(name) + ".json";
    if name == "" || |name| > 32 || |path| >= cap then NoPath else At(path)
  }

  /** A character has a file exactly if the name has 1 to 32 characters and the path fits its buffer. */
  lemma PathExactlyWhen(root: string, name: string, cap: nat)
    ensures CharacterPath(root, name, cap).At? <==> 1 <= |name| <= 32 && |root| + |name| + 6 < cap
  {
  }

  /** Two names share a character file exactly when they differ in case at most. */
  lemma SameFileExactlyWhen(root: string, a: string, b: string, cap: nat)
    requires CharacterPath(root, a, cap).At? && CharacterPath(root, b, cap).At?
    ensures CharacterPath(root, a, cap) == CharacterPath(root, b, cap) <==> EqNoCase(a, b)
  {
    var p, q := root + "/" + Lower(a) + ".json", root + "/" + Lower(b) + ".json";
    if p == q {
      assert p[|root| + 1..|p| - 5] == Lower(a) && q[|root| + 1..|q| - 5] == Lower(b);
    }
  }
}
