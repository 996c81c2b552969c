/** `hg_players_json` of `ffi/format.c`: who else is in the room, as one JSON array in a bounded buffer. */
module Players {
  import opened CStrings
  import opened Picks
  import opened Seating
  import opened Sessions
  import opened Json
  import LoginSpec

  const ESCAPE_CAP := 80

  datatype Entry = Entry(name: string, standing: string)

  /** `hg_brand_standing`: the brand, then the chosen faction, then extreme morality. */
  function Standing(ashsworn: bool, faction: string, morality: int): string {
    if ashsworn then "ash-sworn"
    else if faction == "front" then "Cinder Front"
    else if faction == "ally" then "Free Folk ally"
    else if morality >= 50 then "a beacon of the wastes"
    else if morality <= -50 then "reviled"
    else ""
  }

  function Quoted(s: string): string { "\"" + (Escape(s) + "\"") }

  /** `"key":"value"`, the key written as it stands and the value already escaped. */
  function Field(key: string, escaped: string): string {
    "\"" + (key + ("\"" + (":" + ("\"" + (escaped + "\"")))))
  }

  function Pair(k1: string, e1: string, k2: string, e2: string): string {
    "{" + (Field(k1, e1) + ("," + (Field(k2, e2) + "}")))
  }

  function Item(e: Entry): string { Pair("name", Escape(e.name), "standing", Escape(e.standing)) }

  /** The items, comma-separated. */
  function Items(es: seq<Entry>): string {
    if es == [] then ""
    else if |es| == 1 then Item(es[0])
    else Items(es[..|es| - 1]) + ("," + Item(es[|es| - 1]))
  }

  function Text(es: seq<Entry>): string { "[" + (Items(es) + "]") }

  function ItemValue(e: Entry): Value { Obj([("name", Str(e.name)), ("standing", Str(e.standing))]) }

  function Values(es: seq<Entry>): seq<Value> { seq(|es|, i requires 0 <= i < |es| => ItemValue(es[i])) }

  // ---- The parser reads the text back ------------------------------------------------------------------------

  lemma Second(c: char, t: string)
    ensures ([c] + t)[1..] == t && ([c] + t)[0] == c
  {
  }

  lemma ParseQuoted(s: string, rest: string)
    ensures ParseValue(Quoted(s) + rest) == Good(Str(s), rest)
  {
    var t := Escape(s) + "\"" + rest;
    Assoc("\"", Escape(s) + "\"", rest);
    Second('"', t);
    UnescapeUndoesEscape(s, rest);
    ReadStr("\"" + t, s, rest);
  }

  lemma FieldSplits(key: string, s: string, next: string)
    ensures Field(key, Escape(s)) + next == "\"" + (key + "\"" + (":" + (Quoted(s) + next)))
  {
    Assoc(":", Quoted(s), next);
    Assoc("\"", ":" + Quoted(s), next);
    Assoc(key, "\"" + (":" + Quoted(s)), next);
    Assoc("\"", key + ("\"" + (":" + Quoted(s))), next);
    Assoc(key, "\"", ":" + (Quoted(s) + next));
  }

  /** The parser takes the key of a field. */
  lemma ParseKey(key: string, s: string, next: string) returns (u: string)
    requires Escape(key) == key
    ensures u == Quoted(s) + next
    ensures var t := Field(key, Escape(s)) + next; t != "" && t[0] == '"' && ParseChars(t[1..]) == Good(key, ":" + u)
  {
    u := Quoted(s) + next;
    FieldSplits(key, s, next);
    Second('"', key + "\"" + (":" + u));
    UnescapeUndoesEscape(key, ":" + u);
  }

  lemma ParseLastField(key: string, s: string, rest: string)
    requires Escape(key) == key
    ensures ParseMembers(Field(key, Escape(s)) + ("}" + rest)) == Good([(key, Str(s))], rest)
  {
    var u := ParseKey(key, s, "}" + rest);
    ParseQuoted(s, "}" + rest);
    ReadPair(Field(key, Escape(s)) + ("}" + rest), key, u, Str(s), "}" + rest);
    ReadLastMember(Field(key, Escape(s)) + ("}" + rest), (key, Str(s)), rest);
  }

  lemma ParseField(key: string, s: string, rest: string, ms: seq<(string, Value)>, end: string)
    requires Escape(key) == key && ParseMembers(rest) == Good(ms, end)
    ensures ParseMembers(Field(key, Escape(s)) + ("," + rest)) == Good([(key, Str(s))] + ms, end)
  {
    var u := ParseKey(key, s, "," + rest);
    ParseQuoted(s, "," + rest);
    ReadPair(Field(key, Escape(s)) + ("," + rest), key, u, Str(s), "," + rest);
    ReadMember(Field(key, Escape(s)) + ("," + rest), (key, Str(s)), rest, ms, end);
  }

  lemma PairSplits(k1: string, s1: string, k2: string, s2: string, rest: string)
    ensures Pair(k1, Escape(s1), k2, Escape(s2)) + rest ==
            "{" + (Field(k1, Escape(s1)) + ("," + (Field(k2, Escape(s2)) + ("}" + rest))))
  {
    Assoc(Field(k2, Escape(s2)), "}", rest);
    Assoc(",", Field(k2, Escape(s2)) + "}", rest);
    Assoc(Field(k1, Escape(s1)), "," + (Field(k2, Escape(s2)) + "}"), rest);
    Assoc("{", Field(k1, Escape(s1)) + ("," + (Field(k2, Escape(s2)) + "}")), rest);
  }

  lemma ParsePair(k1: string, s1: string, k2: string, s2: string, rest: string)
    requires Escape(k1) == k1 && Escape(k2) == k2
    ensures ParseValue(Pair(k1, Escape(s1), k2, Escape(s2)) + rest) == Good(Obj([(k1, Str(s1)), (k2, Str(s2))]), rest)
  {
    var last := Field(k2, Escape(s2)) + ("}" + rest);
    var body := Field(k1, Escape(s1)) + ("," + last);
    PairSplits(k1, s1, k2, s2, rest);
    ParseLastField(k2, s2, rest);
    ParseField(k1, s1, last, [(k2, Str(s2))], rest);
    Second('{', body);
    assert body[0] == '"';
    assert [(k1, Str(s1))] + [(k2, Str(s2))] == [(k1, Str(s1)), (k2, Str(s2))];
    ReadObj("{" + body, [(k1, Str(s1)), (k2, Str(s2))], rest);
  }

  predicate Plain(s: string) { forall i :: 0 <= i < |s| ==> s[i] != '"' && s[i] != '\\' && !Control(s[i]) }

  lemma {:induction false} EscapePlain(s: string)
    requires Plain(s)
    ensures Escape(s) == s
  {
    if s != "" { EscapePlain(s[..|s| - 1]); }
  }

  lemma KeysStand()
    ensures Escape("name") == "name" && Escape("standing") == "standing"
  {
    EscapePlain("name");
    EscapePlain("standing");
  }

  lemma ParseItem(e: Entry, rest: string)
    ensures ParseValue(Item(e) + rest) == Good(ItemValue(e), rest)
  {
    KeysStand();
    ParsePair("name", e.name, "standing", e.standing, rest);
  }

  lemma {:induction false} ItemsSplit(a: seq<Entry>, b: seq<Entry>)
    requires a != [] && b != []
    ensures Items(a + b) == Items(a) + ("," + Items(b))
  {
    var init, last := b[..|b| - 1], b[|b| - 1];
    if init == [] {
      assert b == [last];
      ItemsStep(a, last);
    } else {
      assert a + b == (a + init) + [last];
      assert b == init + [last];
      ItemsStep(a + init, last);
      ItemsStep(init, last);
      ItemsSplit(a, init);
      Assoc(",", Items(init), "," + Item(last));
      Assoc(Items(a), "," + Items(init), "," + Item(last));
    }
  }

  lemma {:induction false} ParseItems(es: seq<Entry>)
    requires es != []
    ensures ParseElements(Items(es) + "]") == Good(Values(es), "")
  {
    if |es| == 1 {
      ParseItem(es[0], "]");
      assert Values(es) == [ItemValue(es[0])];
      assert "]" + "" == "]";
      ReadLastElement(Item(es[0]) + "]", ItemValue(es[0]), "");
    } else {
      var more := es[1..];
      assert es == [es[0]] + more;
      ParseItems(more);
      var t := ItemAnd(es[0], more, Items(more) + "]");
      ParseItemAnd(es[0], more, Items(more) + "]", t);
    }
  }

  lemma ParseItemAnd(e: Entry, more: seq<Entry>, rest: string, t: string)
    requires t == Item(e) + ("," + rest) && ParseElements(rest) == Good(Values(more), "")
    ensures ParseElements(t) == Good(Values([e] + more), "")
  {
    ParseItem(e, "," + rest);
    ReadElement(t, ItemValue(e), rest, Values(more), "");
    ValuesCons(e, more);
  }

  lemma ValuesCons(e: Entry, more: seq<Entry>)
    ensures Values([e] + more) == [ItemValue(e)] + Values(more)
  {
  }

  lemma ItemAnd(e: Entry, more: seq<Entry>, rest: string) returns (t: string)
    requires more != [] && rest == Items(more) + "]"
    ensures t == Items([e] + more) + "]" == Item(e) + ("," + rest)
  {
    t := Items([e] + more) + "]";
    ItemsSplit([e], more);
    Assoc(",", Items(more), "]");
    Assoc(Item(e), "," + Items(more), "]");
  }

  lemma {:induction false} ItemsStart(es: seq<Entry>)
    requires es != []
    ensures Items(es) != "" && Items(es)[0] == '{'
  {
    if |es| > 1 { ItemsStart(es[..|es| - 1]); }
  }

  /** Parsing the text gives back exactly the entries, in order, and nothing is left over. */
  lemma TextParsesBack(es: seq<Entry>)
    ensures ParseValue(Text(es)) == Good(Arr(Values(es)), "")
  {
    Second('[', Items(es) + "]");
    if es == [] {
      assert Values(es) == [];
    } else {
      ParseItems(es);
      ItemsStart(es);
      ReadArr(Text(es), Values(es), "");
    }
  }

  lemma OneLineJoin(a: string, b: string)
    requires OneLine(a) && OneLine(b)
    ensures OneLine(a + b)
  {
  }

  lemma FieldOneLine(key: string, s: string)
    requires Plain(key)
    ensures OneLine(Field(key, Escape(s)))
  {
    EscapeIsOneLine(s);
    OneLineJoin(Escape(s), "\"");
    OneLineJoin("\"", Escape(s) + "\"");
  }

  lemma PairOneLine(k1: string, s1: string, k2: string, s2: string)
    requires Plain(k1) && Plain(k2)
    ensures OneLine(Pair(k1, Escape(s1), k2, Escape(s2)))
  {
    FieldOneLine(k1, s1);
    FieldOneLine(k2, s2);
    OneLineJoin(Field(k2, Escape(s2)), "}");
    OneLineJoin(",", Field(k2, Escape(s2)) + "}");
    OneLineJoin(Field(k1, Escape(s1)), "," + (Field(k2, Escape(s2)) + "}"));
  }

  /** The listing never breaks its event line. */
  lemma {:induction false} ItemsOneLine(es: seq<Entry>)
    ensures OneLine(Items(es))
  {
    if es != [] {
      var last := es[|es| - 1];
      PairOneLine("name", last.name, "standing", last.standing);
      ItemsOneLine(es[..|es| - 1]);
      OneLineJoin(",", Item(last));
    }
  }

  // ---- Filling the buffer ------------------------------------------------------------------------------------

  function EntryOf(s: Seat): Entry
    requires s.Seated?
  {
    Entry(s.name, Standing(s.ashsworn, s.faction, s.morality))
  }

  /** Whether a seat belongs in the listing: in the room, named, not the one left out, and escapable. */
  predicate Listed(s: Seat, room: int, except: string) {
    s.Seated? && s.room == room && s.name != "" && !EqNoCase(s.name, except) &&
    |Escape(s.name)| < ESCAPE_CAP && |Escape(EntryOf(s).standing)| < ESCAPE_CAP
  }

  /** The listing, in slot order. */
  function Listing(seats: seq<Seat>, room: int, except: string): seq<Entry> {
    if seats == [] then []
    else
      var before := Listing(seats[..|seats| - 1], room, except);
      if Listed(seats[|seats| - 1], room, except) then before + [EntryOf(seats[|seats| - 1])] else before
  }

  /** No session with a valid name is dropped for its length: names and standings always fit their scratch buffers. */
  lemma ValidNamesFit(name: string, ashsworn: bool, faction: string, morality: int)
    requires |name| <= 32 && Plain(name)
    ensures |Escape(name)| < ESCAPE_CAP && |Escape(Standing(ashsworn, faction, morality))| < ESCAPE_CAP
  {
    EscapePlain(name);
    StandingIsPlain(ashsworn, faction, morality);
    EscapePlain(Standing(ashsworn, faction, morality));
  }

  lemma ValidNameIsPlain(name: string)
    requires LoginSpec.ValidName(name)
    ensures Plain(name) && |name| <= 32
  {
  }

  /** Who is there to be seen: in the room, named, and not the one left out. */
  predicate Present(s: Seat, room: int, except: string) {
    s.Seated? && s.room == room && s.name != "" && !EqNoCase(s.name, except)
  }

  function Roll(seats: seq<Seat>, room: int, except: string): seq<Entry> {
    if seats == [] then []
    else
      var before := Roll(seats[..|seats| - 1], room, except);
      if Present(seats[|seats| - 1], room, except) then before + [EntryOf(seats[|seats| - 1])] else before
  }

  /** Every name in the table passed the name check at login. */
  predicate NamesValid(seats: seq<Seat>) {
    forall i :: 0 <= i < |seats| && seats[i].Seated? && seats[i].name != "" ==> LoginSpec.ValidName(seats[i].name)
  }

  /** So the listing is exactly who is there: nobody is dropped for want of scratch space. */
  lemma {:induction false} NobodyIsDropped(seats: seq<Seat>, room: int, except: string)
    requires NamesValid(seats)
    ensures Listing(seats, room, except) == Roll(seats, room, except)
  {
    if seats != [] {
      var last := seats[|seats| - 1];
      NobodyIsDropped(seats[..|seats| - 1], room, except);
      if last.Seated? && last.name != "" {
        ValidNameIsPlain(last.name);
        ValidNamesFit(last.name, last.ashsworn, last.faction, last.morality);
      }
    }
  }

  /** What a standing tells its reader. */
  predicate SaysOf(standing: string, ashsworn: bool, faction: string, morality: int) {
    && (standing == "ash-sworn" <==> ashsworn)
    && (standing == "Cinder Front" <==> !ashsworn && faction == "front")
    && (standing == "Free Folk ally" <==> !ashsworn && faction == "ally")
    && (standing == "a beacon of the wastes" <==> !ashsworn && faction !in {"front", "ally"} && morality >= 50)
    && (standing == "reviled" <==> !ashsworn && faction !in {"front", "ally"} && morality <= -50)
    && (standing == "" <==> !ashsworn && faction !in {"front", "ally"} && -50 < morality < 50)
  }

  lemma StandingExactlyWhen(ashsworn: bool, faction: string, morality: int)
    ensures SaysOf(Standing(ashsworn, faction, morality), ashsworn, faction, morality)
  {
  }

  /** The parsed value is one object that names the session in the seat and tells its standing. */
  predicate Describes(v: Value, s: Seat) {
    && s.Seated? && v.Obj? && |v.members| == 2 && v.members[0] == ("name", Str(s.name))
    && v.members[1].0 == "standing" && v.members[1].1.Str?
    && SaysOf(v.members[1].1.s, s.ashsworn, s.faction, s.morality)
  }

  /** A session that can be listed: in the room, with a name that fits the scratch buffer, and not the one left out. */
  predicate Visible(s: Seat, room: int, except: string) {
    s.Seated? && s.room == room && s.name != "" && Lower(s.name) != Lower(except) && |Escape(s.name)| < 80
  }

  lemma ListedExactlyWhen(s: Seat, room: int, except: string)
    ensures Listed(s, room, except) <==> Visible(s, room, except)
  {
    if s.Seated? {
      StandingIsPlain(s.ashsworn, s.faction, s.morality);
      EscapePlain(Standing(s.ashsworn, s.faction, s.morality));
    }
  }

  /** The entries are those of the seats at `at`, which are the listed ones. */
  ghost predicate ListsAt(seats: seq<Seat>, es: seq<Entry>, at: seq<nat>, room: int, except: string) {
    && |at| == |es| && Ascending(at)
    && (forall k :: 0 <= k < |at| ==> at[k] < |seats| && seats[at[k]].Seated? && es[k] == EntryOf(seats[at[k]]))
    && forall i :: 0 <= i < |seats| ==> (i in at <==> Listed(seats[i], room, except))
  }

  lemma ListsLast(seats: seq<Seat>, last: Seat, es: seq<Entry>, at: seq<nat>, room: int, except: string)
    requires ListsAt(seats, es, at, room, except)
    ensures var longer := seats + [last];
            if Listed(last, room, except) then ListsAt(longer, es + [EntryOf(last)], at + [|seats|], room, except)
            else ListsAt(longer, es, at, room, except)
  {
    AscendingSnoc(at, |seats|);
    assert |seats| !in at;
  }

  lemma {:induction false} ListingIsExact(seats: seq<Seat>, room: int, except: string) returns (at: seq<nat>)
    ensures ListsAt(seats, Listing(seats, room, except), at, room, except)
  {
    if seats == [] {
      at := [];
    } else {
      var init, last := seats[..|seats| - 1], seats[|seats| - 1];
      at := ListingIsExact(init, room, except);
      ListsLast(init, last, Listing(init, room, except), at, room, except);
      assert seats == init + [last];
      if Listed(last, room, except) { at := at + [|init|]; }
    }
  }

  lemma EntryDescribes(s: Seat)
    requires s.Seated?
    ensures Describes(ItemValue(EntryOf(s)), s)
  {
    StandingExactlyWhen(s.ashsworn, s.faction, s.morality);
  }

  /** What a reader finds in the parsed listing: one object for each visible session, in slot order, and nothing
      else. */
  lemma ReaderFinds(seats: seq<Seat>, room: int, except: string) returns (at: seq<nat>)
    ensures var vs := Values(Listing(seats, room, except));
            && |at| == |vs| && Ascending(at)
            && forall k :: 0 <= k < |at| ==> at[k] < |seats| && Describes(vs[k], seats[at[k]])
    ensures forall i :: 0 <= i < |seats| ==> (i in at <==> Visible(seats[i], room, except))
  {
    at := ListingIsExact(seats, room, except);
    forall k | 0 <= k < |at| ensures Describes(Values(Listing(seats, room, except))[k], seats[at[k]]) {
      EntryDescribes(seats[at[k]]);
    }
    forall i | 0 <= i < |seats| ensures Listed(seats[i], room, except) <==> Visible(seats[i], room, except) {
      ListedExactlyWhen(seats[i], room, except);
    }
  }

  lemma StandingIsPlain(ashsworn: bool, faction: string, morality: int)
    ensures Plain(Standing(ashsworn, faction, morality)) && |Standing(ashsworn, faction, morality)| < 32
  {
  }

  /** `snprintf(buf + o, cap - o, "%s", text)`: what fits, a NUL, and the full length as the answer. */
  method Snprintf(buf: array<char>, o: nat, cap: nat, text: string) returns (wrote: int)
    requires o < cap <= buf.Length
    modifies buf
    ensures wrote == |text|
    ensures forall k :: 0 <= k < o ==> buf[k] == old(buf[k])
    ensures |text| < cap - o ==> buf[..o + |text|] == old(buf[..o]) + text && buf[o + |text|] == '\0'
  {
    var n := if |text| < cap - o then |text| else cap - o - 1;
    forall k | 0 <= k < n { buf[o + k] := text[k]; }
    buf[o + n] := '\0';
    wrote := |text|;
  }

  /** On success the buffer is the text a parser reads back as the listing, and success means it fits. */
  method PlayersJson(table: array<Session?>, room: int, except: string, buf: array<char>, cap: nat) returns (n: int)
    requires cap <= buf.Length
    modifies buf
    ensures var es := Listing(old(Seats(table)), room, except);
            && (n >= 0 <==> |Text(es)| + 1 <= cap)
            && (n >= 0 ==> n == |Text(es)| && buf[..n] == Text(es) && buf[n] == '\0'
                           && ParseValue(buf[..n]) == Good(Arr(Values(es)), "") && OneLine(buf[..n]))
            && (n < 0 ==> n == -1)
  {
    ghost var es := Listing(Seats(table), room, except);
    if cap < 3 {
      return -1;
    }
    var ok, o := FillItems(table, room, except, buf, cap);
    if !ok {
      return -1;
    }
    n := CloseArray(buf, o, cap, es);
  }

  /** The closing bracket, if there is room for it. */
  method CloseArray(buf: array<char>, o: nat, cap: nat, ghost es: seq<Entry>) returns (n: int)
    requires o < cap <= buf.Length && buf[..o] == "[" + Items(es) && o == 1 + |Items(es)|
    modifies buf
    ensures n >= 0 <==> |Text(es)| + 1 <= cap
    ensures n >= 0 ==> n == |Text(es)| && buf[..n] == Text(es) && buf[n] == '\0'
                       && ParseValue(buf[..n]) == Good(Arr(Values(es)), "") && OneLine(buf[..n])
    ensures n < 0 ==> n == -1
  {
    if o + 2 > cap {
      return -1;
    }
    buf[o] := ']';
    n := o + 1;
    buf[n] := '\0';
    TextIsListing(es, buf[..n]);
  }

  lemma TextIsListing(es: seq<Entry>, t: string)
    requires t == ("[" + Items(es)) + "]"
    ensures t == Text(es) && ParseValue(t) == Good(Arr(Values(es)), "") && OneLine(t)
  {
    Assoc("[", Items(es), "]");
    TextParsesBack(es);
    ItemsOneLine(es);
    OneLineJoin(Items(es), "]");
    OneLineJoin("[", Items(es) + "]");
  }

  /** The walk over all table slots; when an item does not fit, the buffer becomes an empty array. */
  method FillItems(table: array<Session?>, room: int, except: string, buf: array<char>, cap: nat)
    returns (ok: bool, o: nat)
    requires 3 <= cap <= buf.Length
    modifies buf
    ensures var es := Listing(old(Seats(table)), room, except);
            if ok then o < cap && buf[..o] == "[" + Items(es) && o == 1 + |Items(es)|
            else |Items(es)| + 3 > cap && buf[0] == '[' && buf[1] == ']' && buf[2] == '\0'
  {
    ghost var seats, es := Seats(table), [];
    buf[0] := '[';
    o := 1;
    var first := true;
    for i := 0 to table.Length
      invariant 1 <= o < cap && es == Listing(seats[..i], room, except)
      invariant buf[..o] == "[" + Items(es) && first == (es == [])
    {
      assert SeatOf(table[i]) == old(SeatOf(table[i]));
      ok, o, first, es := PrintSession(table[i], room, except, buf, o, cap, first, es, seats, i);
      if !ok {
        return;
      }
    }
    assert seats[..|seats|] == seats;
    ok := true;
  }

  /** One turn of the walk. */
  method PrintSession(s: Session?, room: int, except: string, buf: array<char>, o: nat, cap: nat, first: bool,
                      ghost es: seq<Entry>, ghost seats: seq<Seat>, ghost i: nat)
    returns (ok: bool, o': nat, first': bool, ghost es': seq<Entry>)
    requires 1 <= o < cap <= buf.Length && 3 <= cap && buf[..o] == "[" + Items(es) && first == (es == [])
    requires i < |seats| && seats[i] == SeatOf(s) && es == Listing(seats[..i], room, except)
    modifies buf
    ensures es' == Listing(seats[..i + 1], room, except)
    ensures if ok then 1 <= o' < cap && buf[..o'] == "[" + Items(es') && first' == (es' == [])
            else |Items(Listing(seats, room, except))| + 3 > cap && buf[0] == '[' && buf[1] == ']' && buf[2] == '\0'
  {
    ListingStep(seats, i, room, except);
    ok, o', first', es' := PrintSeat(s, room, except, buf, o, cap, first, es);
  }

  method PrintSeat(s: Session?, room: int, except: string, buf: array<char>, o: nat, cap: nat, first: bool,
                   ghost es: seq<Entry>) returns (ok: bool, o': nat, first': bool, ghost es': seq<Entry>)
    requires 1 <= o < cap <= buf.Length && 3 <= cap && buf[..o] == "[" + Items(es) && first == (es == [])
    modifies buf
    ensures es' == if Listed(old(SeatOf(s)), room, except) then es + [EntryOf(old(SeatOf(s)))] else es
    ensures if ok then 1 <= o' < cap && buf[..o'] == "[" + Items(es') && first' == (es' == [])
            else |Items(es')| + 1 >= cap && buf[0] == '[' && buf[1] == ']' && buf[2] == '\0'
  {
    ok, o', first', es' := true, o, first, es;
    var nesc, sesc := EscapeSession(s, room, except);
    if sesc.None? {
      return;
    }
    es' := es + [EntryOf(SeatOf(s))];
    var wrote := AppendItem(buf, o, cap, first, nesc.text, sesc.text, es, EntryOf(SeatOf(s)));
    if wrote >= cap - o {
      EmptyArray(buf);
      ok := false;
    } else {
      o', first' := o + wrote, false;
    }
  }

  method EmptyArray(buf: array<char>)
    requires 3 <= buf.Length
    modifies buf
    ensures buf[0] == '[' && buf[1] == ']' && buf[2] == '\0'
  {
    buf[0], buf[1], buf[2] := '[', ']', '\0';
  }

  /** One item and the comma before it, printed at offset `o`. */
  method AppendItem(buf: array<char>, o: nat, cap: nat, first: bool, name: string, standing: string,
                    ghost es: seq<Entry>, ghost e: Entry) returns (wrote: int)
    requires 1 <= o < cap <= buf.Length && buf[..o] == "[" + Items(es) && first == (es == [])
    requires name == Escape(e.name) && standing == Escape(e.standing)
    modifies buf
    ensures o + wrote == 1 + |Items(es + [e])| && wrote >= 0
    ensures wrote < cap - o ==> buf[..o + wrote] == "[" + Items(es + [e])
  {
    var item := Pair("name", name, "standing", standing);
    if !first {
      item := "," + item;
    }
    ItemAppended(es, e, item);
    wrote := Snprintf(buf, o, cap, item);
  }

  lemma ItemAppended(es: seq<Entry>, e: Entry, item: string)
    requires item == if es == [] then Item(e) else "," + Item(e)
    ensures "[" + Items(es + [e]) == ("[" + Items(es)) + item
    ensures |Items(es + [e])| == |Items(es)| + |item|
  {
    ItemsStep(es, e);
    Assoc("[", Items(es), item);
  }

  /** The tests one slot has to pass, and its two escaped fields if it passes them all. */
  method EscapeSession(s: Session?, room: int, except: string) returns (nesc: Scratch, sesc: Scratch)
    ensures sesc.Fits? <==> Listed(SeatOf(s), room, except)
    ensures sesc.Fits? ==> nesc == Fits(Escape(SeatOf(s).name)) && sesc == Fits(Escape(EntryOf(SeatOf(s)).standing))
  {
    nesc, sesc := None, None;
    if s == null || s.room != room || s.name == "" || EqNoCase(s.name, except) {
      return;
    }
    nesc := EscapeScratch(s.name);
    if nesc.Fits? {
      sesc := EscapeScratch(Standing(s.ashsworn, s.faction, s.morality));
    }
  }

  datatype Scratch = None | Fits(text: string)

  /** An escape into one of the 80-byte scratch buffers. */
  method EscapeScratch(s: string) returns (r: Scratch)
    ensures r == if |Escape(s)| < ESCAPE_CAP then Fits(Escape(s)) else None
  {
    var scratch := new char[ESCAPE_CAP];
    var n := JsonEscape(scratch, ESCAPE_CAP, s);
    r := if n < 0 then None else Fits(scratch[..n]);
  }

  lemma ItemsStep(es: seq<Entry>, e: Entry)
    ensures Items(es + [e]) == if es == [] then Item(e) else Items(es) + ("," + Item(e))
  {
    assert (es + [e])[..|es|] == es;
  }

  /** One more seat: its entry is appended if it is listed, and the items never outgrow those of the whole table. */
  lemma ListingStep(seats: seq<Seat>, i: nat, room: int, except: string)
    requires i < |seats|
    ensures var es := Listing(seats[..i], room, except);
            && Listing(seats[..i + 1], room, except) ==
                 (if Listed(seats[i], room, except) then es + [EntryOf(seats[i])] else es)
            && |Items(Listing(seats[..i + 1], room, except))| <= |Items(Listing(seats, room, except))|
  {
    assert seats[..i + 1][..i] == seats[..i];
    ListingGrows(seats, i + 1, room, except);
  }

  lemma {:induction false} ListingGrows(seats: seq<Seat>, i: nat, room: int, except: string)
    requires i <= |seats|
    ensures |Items(Listing(seats[..i], room, except))| <= |Items(Listing(seats, room, except))|
    decreases |seats|
  {
    if i < |seats| {
      var init, last := seats[..|seats| - 1], seats[|seats| - 1];
      assert init[..i] == seats[..i];
      ListingGrows(init, i, room, except);
      if Listed(last, room, except) { ItemsStep(Listing(init, room, except), EntryOf(last)); }
    } else {
      assert seats[..i] == seats;
    }
  }
}
