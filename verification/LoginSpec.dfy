/** The login state machine of `asm/session.asm` and the keeper list of `asm/social_ledger.asm`, as functions, and what
    every sequence of inputs on any number of connections keeps. */
module LoginSpec {
  import opened CStrings
  import opened Sessions
  import opened Registry

  // ---- Input lines -------------------------------------------------------------------------------------------

  const INPUT_MAX := 255

  predicate TailBlank(c: char) { c == ' ' || c == '\t' || c == '\n' || c == '\r' }
  predicate HeadBlank(c: char) { c == ' ' || c == '\t' }

  function DropTail(s: string): string {
    if s != "" && TailBlank(s[|s| - 1]) then DropTail(s[..|s| - 1]) else s
  }

  function DropHead(s: string): string {
    if s != "" && HeadBlank(s[0]) then DropHead(s[1..]) else s
  }

  function Trimmed(input: string): string { DropHead(DropTail(CopyCap(input, INPUT_MAX + 1))) }

  /** What a C function sees of a line that may hold a NUL. */
  function UpToNul(s: string): string {
    if s == "" || s[0] == '\0' then "" else [s[0]] + UpToNul(s[1..])
  }

  /** The line is the input cut to 255 bytes, without blanks at either end and with nothing else lost. */
  lemma TrimmedIsTrimmed(input: string) returns (before: string, after: string)
    ensures CopyCap(input, 256) == before + Trimmed(input) + after
    ensures forall i :: 0 <= i < |before| ==> HeadBlank(before[i])
    ensures forall i :: 0 <= i < |after| ==> TailBlank(after[i])
    ensures Trimmed(input) != "" ==> !HeadBlank(Trimmed(input)[0]) && !TailBlank(Trimmed(input)[|Trimmed(input)| - 1])
  {
    var s := CopyCap(input, INPUT_MAX + 1);
    after := TailSplit(s);
    before := HeadSplit(DropTail(s));
  }

  lemma {:induction false} TailSplit(s: string) returns (after: string)
    ensures s == DropTail(s) + after && forall i :: 0 <= i < |after| ==> TailBlank(after[i])
    ensures DropTail(s) != "" ==> !TailBlank(DropTail(s)[|DropTail(s)| - 1])
  {
    if s != "" && TailBlank(s[|s| - 1]) {
      var rest := TailSplit(s[..|s| - 1]);
      after := rest + [s[|s| - 1]];
    } else {
      after := "";
    }
  }

  lemma {:induction false} HeadSplit(s: string) returns (before: string)
    ensures s == before + DropHead(s) && forall i :: 0 <= i < |before| ==> HeadBlank(before[i])
    ensures DropHead(s) != "" ==> !HeadBlank(DropHead(s)[0])
  {
    if s != "" && HeadBlank(s[0]) {
      var rest := HeadSplit(s[1..]);
      before := [s[0]] + rest;
    } else {
      before := "";
    }
  }

  // ---- Names, races, keepers ---------------------------------------------------------------------------------

  predicate NameChar(c: char) {
    '0' <= c <= '9' || 'A' <= c <= 'Z' || 'a' <= c <= 'z' || c == '-' || c == '_'
  }

  predicate ValidName(s: string) { 2 <= |s| <= 32 && forall i :: 0 <= i < |s| ==> NameChar(s[i]) }

  const DIGITS := "0123456789"
  const CAPITALS := "ABCDEFGHIJKLMNOPQRSTUVWXYZ"
  const SMALL := "abcdefghijklmnopqrstuvwxyz"

  /** A stretch of the alphabet holds exactly the characters between its ends. */
  lemma Stretch(s: string, c: char)
    requires s != "" && forall i :: 0 <= i < |s| ==> s[i] as int == s[0] as int + i
    ensures c in s <==> s[0] <= c <= s[|s| - 1]
  {
    if s[0] <= c <= s[|s| - 1] { assert s[c as int - s[0] as int] == c; }
  }

  lemma DigitExactlyWhen(c: char)
    ensures c in DIGITS <==> '0' <= c <= '9'
  {
    Stretch(DIGITS, c);
  }

  lemma CapitalExactlyWhen(c: char)
    ensures c in CAPITALS <==> 'A' <= c <= 'Z'
  {
    Stretch(CAPITALS, c);
  }

  lemma SmallExactlyWhen(c: char)
    ensures c in SMALL <==> 'a' <= c <= 'z'
  {
    Stretch(SMALL, c);
  }

  predicate InAlphabet(c: char) { c in DIGITS || c in CAPITALS || c in SMALL || c == '-' || c == '_' }

  lemma NameCharExactlyWhen(c: char)
    ensures NameChar(c) <==> InAlphabet(c)
  {
    DigitExactlyWhen(c);
    CapitalExactlyWhen(c);
    SmallExactlyWhen(c);
  }

  /** A valid name is 2 to 32 characters of the alphabet. */
  lemma ValidNameExactlyWhen(s: string)
    ensures ValidName(s) <==> 2 <= |s| <= 32 && forall i :: 0 <= i < |s| ==> InAlphabet(s[i])
  {
    forall i | 0 <= i < |s| ensures NameChar(s[i]) <==> InAlphabet(s[i]) { NameCharExactlyWhen(s[i]); }
  }

  const RACES: seq<string> := ["human", "elf", "revenant", "ghoul", "chromed", "dustkin", "vatborn"]

  datatype Choice = NoRace | Chosen(race: string)

  /** The first race of the table that the line names, in any case. */
  function RaceNamed(line: string, i: nat): Choice
    decreases |RACES| - i
  {
    if i >= |RACES| then NoRace
    else if EqNoCase(UpToNul(line), RACES[i]) then Chosen(RACES[i])
    else RaceNamed(line, i + 1)
  }

  function RaceOf(line: string): Choice {
    if |line| == 1 && '1' <= line[0] <= '7' then Chosen(RACES[line[0] as int - '1' as int]) else RaceNamed(line, 0)
  }

  /** A line chooses a race exactly if it is the race's number or its name in any case. */
  lemma RaceExactlyWhen(line: string, race: string)
    ensures var races := ["human", "elf", "revenant", "ghoul", "chromed", "dustkin", "vatborn"];
            RaceOf(line) == Chosen(race)
            <==> exists i :: 0 <= i < |races| && races[i] == race &&
                             (line == ["1234567"[i]] || EqNoCase(UpToNul(line), race))
  {
    if |line| == 1 && '1' <= line[0] <= '7' {
      var k := line[0] as int - '1' as int;
      assert line == ["1234567"[k]];
      assert |Lower(UpToNul(line))| <= 1;
    } else {
      RaceNamedExactlyWhen(line, 0, race);
      assert forall i :: 0 <= i < 7 ==> line != ["1234567"[i]];
    }
  }

  lemma {:induction false} RaceNamedExactlyWhen(line: string, i: nat, race: string)
    ensures RaceNamed(line, i) == Chosen(race)
      <==> exists k :: i <= k < |RACES| && RACES[k] == race && EqNoCase(UpToNul(line), race)
    decreases |RACES| - i
  {
    if i < |RACES| {
      RaceNamedExactlyWhen(line, i + 1, race);
      if EqNoCase(UpToNul(line), RACES[i]) { RacesDiffer(); }
    }
  }

  lemma RacesDiffer()
    ensures forall i, j :: 0 <= i < j < |RACES| ==> !EqNoCase(RACES[i], RACES[j])
  {
    forall i, j | 0 <= i < j < |RACES| ensures !EqNoCase(RACES[i], RACES[j]) {
      assert Lower(RACES[i])[0] == LowerChar(RACES[i][0]) && Lower(RACES[j])[0] == LowerChar(RACES[j][0]);
    }
  }

  predicate IsAdmin(admins: seq<string>, name: string) { exists i :: 0 <= i < |admins| && EqNoCase(admins[i], name) }

  predicate Separator(c: char) { c == ' ' || c == '\t' || c == ',' }

  /** How far the word at the start of `s` reaches. */
  function WordEnd(s: string): (n: nat)
    ensures n <= |s| && (forall i :: 0 <= i < n ==> !Separator(s[i])) && (n < |s| ==> Separator(s[n]))
  {
    if s == "" || Separator(s[0]) then 0 else 1 + WordEnd(s[1..])
  }

  /** The words of the ADMINS variable: the maximal runs without a separator. */
  function Words(s: string): (ws: seq<string>)
    ensures forall i :: 0 <= i < |ws| ==> ws[i] != "" && forall j :: 0 <= j < |ws[i]| ==> !Separator(ws[i][j])
  {
    if s == "" then []
    else if Separator(s[0]) then Words(s[1..])
    else [s[..WordEnd(s)]] + Words(s[WordEnd(s)..])
  }

  /** A stretch without separators that cannot be made longer. */
  predicate IsRun(s: string, i: nat, j: nat) {
    i < j <= |s| && (forall k :: i <= k < j ==> !Separator(s[k])) &&
    (i == 0 || Separator(s[i - 1])) && (j == |s| || Separator(s[j]))
  }

  /** The words `ws` stand at `at`, from left to right, and each is such a stretch. */
  ghost predicate StandAt(s: string, at: seq<nat>, ws: seq<string>) {
    |at| == |ws| && (forall k, l :: 0 <= k < l < |at| ==> at[k] < at[l]) &&
    forall k :: 0 <= k < |at| ==> IsRun(s, at[k], at[k] + |ws[k]|) && s[at[k]..at[k] + |ws[k]|] == ws[k]
  }

  function Moved(at: seq<nat>, n: nat): (r: seq<nat>)
    ensures |r| == |at| && forall k :: 0 <= k < |r| ==> r[k] == at[k] + n
  {
    seq(|at|, k requires 0 <= k < |at| => at[k] + n)
  }

  /** Behind a first word, or a first separator, the runs are those of what is left. */
  lemma ShiftedRun(s: string, n: nat, i: nat, j: nat)
    requires 0 < n <= |s| && (Separator(s[n - 1]) || n == |s| || Separator(s[n]))
    ensures IsRun(s, i + n, j + n) <==> IsRun(s[n..], i, j)
    ensures IsRun(s[n..], i, j) ==> s[i + n..j + n] == s[n..][i..j]
  {
    var t := s[n..];
    assert forall k :: 0 <= k < |t| ==> t[k] == s[k + n];
    if IsRun(s, i + n, j + n) {
      forall k | i <= k < j ensures !Separator(t[k]) { assert t[k] == s[k + n]; }
    }
  }

  lemma MovedStand(s: string, n: nat, at: seq<nat>, ws: seq<string>)
    requires 0 < n <= |s| && (Separator(s[n - 1]) || n == |s| || Separator(s[n])) && StandAt(s[n..], at, ws)
    ensures StandAt(s, Moved(at, n), ws)
  {
    forall k | 0 <= k < |at|
      ensures IsRun(s, at[k] + n, at[k] + n + |ws[k]|) && s[at[k] + n..at[k] + n + |ws[k]|] == ws[k]
    {
      ShiftedRun(s, n, at[k], at[k] + |ws[k]|);
    }
  }

  lemma FirstStands(s: string, n: nat, at: seq<nat>, ws: seq<string>)
    requires 0 < n <= |s| && IsRun(s, 0, n) && StandAt(s, at, ws) && forall k :: 0 <= k < |at| ==> n <= at[k]
    ensures StandAt(s, [0] + at, [s[..n]] + ws)
  {
  }

  /** The words are exactly these stretches, each once and from left to right. */
  lemma {:induction false} WordsAreTheRuns(s: string) returns (at: seq<nat>)
    ensures StandAt(s, at, Words(s))
    ensures forall i, j :: IsRun(s, i, j) ==> i in at
    decreases |s|
  {
    if s == "" {
      at := [];
    } else {
      var n := if Separator(s[0]) then 1 else WordEnd(s);
      var rest := WordsAreTheRuns(s[n..]);
      at := Moved(rest, n);
      MovedStand(s, n, rest, Words(s[n..]));
      if !Separator(s[0]) {
        FirstStands(s, n, at, Words(s[n..]));
        at := [0] + at;
      }
      forall i, j | IsRun(s, i, j) ensures i in at {
        NoRunIsMissed(s, n, rest, i, j);
      }
    }
  }

  lemma NoRunIsMissed(s: string, n: nat, rest: seq<nat>, i: nat, j: nat)
    requires s != "" && n == (if Separator(s[0]) then 1 else WordEnd(s)) && IsRun(s, i, j)
    requires forall i, j :: IsRun(s[n..], i, j) ==> i in rest
    ensures i in Moved(rest, n) || (i == 0 && !Separator(s[0]))
  {
    if n <= i {
      ShiftedRun(s, n, i - n, j - n);
      var k :| 0 <= k < |rest| && rest[k] == i - n;
      assert Moved(rest, n)[k] == i;
    }
  }

  const MAX_KEEPERS := 16

  /** The first words, as many as there is room for, each cut to 32 characters. */
  function FirstCut(ws: seq<string>, max: nat): (r: seq<string>)
    ensures |r| == if |ws| <= max then |ws| else max
    ensures forall k :: 0 <= k < |r| ==> r[k] == CopyCap(ws[k], 33)
  {
    if ws == [] || max == 0 then [] else [CopyCap(ws[0], 33)] + FirstCut(ws[1..], max - 1)
  }

  /** The keepers; one default keeper when the variable is empty. */
  function Keepers(env: string): seq<string> { FirstCut(Words(if env == "" then "skyphusion" else env), MAX_KEEPERS) }

  lemma {:induction false} WholeWord(s: string)
    requires forall i :: 0 <= i < |s| ==> !Separator(s[i])
    ensures WordEnd(s) == |s|
  {
    if s != "" { WholeWord(s[1..]); }
  }

  lemma OneWord(s: string)
    requires s != "" && forall i :: 0 <= i < |s| ==> !Separator(s[i])
    ensures Words(s) == [s]
  {
    WholeWord(s);
    assert s[..|s|] == s && s[|s|..] == "";
  }

  /** Without the variable there is one keeper. */
  lemma DefaultKeeper()
    ensures Keepers("") == ["skyphusion"]
  {
    OneWord("skyphusion");
    OneCut("skyphusion");
  }

  lemma OneCut(name: string)
    requires |name| <= 32
    ensures FirstCut([name], MAX_KEEPERS) == [name]
  {
  }

  // ---- The machine -------------------------------------------------------------------------------------------

  /** The fields of a session block the login owns. The race it also sets plays no part in the decisions. */
  datatype Conn = Conn(state: LoginState, name: string, secretHash: string, keeperAuthed: bool, resuming: bool,
                       closing: bool)

  /** `hg_store_load`: unreadable, no file, or a record and the secret hash it holds. */
  datatype Load = LoadFailed | NoFile | Loaded(hash: string)

  /** What the world outside the machine answers to one input: the character file, whether the hub knew the
      character, whether the token or phrase was right, the hash of a new phrase (never empty) or a failure to
      make one, and whether a command in play asked to close. */
  datatype Reply = Reply(load: Load, hubKnows: bool, tokenOk: bool, phraseMatches: bool, newHash: string, quit: bool)

  const FRESH := Conn(Name, "", "", false, false, false)

  predicate PhraseOk(phrase: string) { 8 <= |UpToNul(phrase)| <= 128 }

  /** After the name, and the keeper's token where one is due: look the character up. */
  function LookUp(c: Conn, r: Reply): Conn {
    match r.load
    case LoadFailed => c
    case Loaded(hash) => c.(secretHash := hash, resuming := true, state := Passphrase)
    case NoFile => if r.hubKnows then c.(resuming := true, state := Passphrase) else c.(state := Race)
  }

  function NameGiven(c: Conn, line: string, admins: seq<string>, r: Reply): Conn {
    if !ValidName(line) then c
    else if IsAdmin(admins, line) then c.(name := line, state := Token)
    else LookUp(c.(name := line), r)
  }

  /** A character without a secret sets one, any other proves it; a phrase that will not do closes the connection. */
  function PhraseGiven(c: Conn, line: string, r: Reply): Conn {
    if c.secretHash == "" then
      if PhraseOk(line) && r.newHash != "" then c.(secretHash := r.newHash, state := Play) else c.(closing := true)
    else if PhraseOk(line) && r.phraseMatches then c.(state := Play)
    else c.(closing := true)
  }

  function Received(c: Conn, input: string, admins: seq<string>, r: Reply): Conn {
    var line := Trimmed(input);
    match c.state
    case Name => NameGiven(c, line, admins, r)
    case Token =>
      if r.tokenOk then LookUp(c.(keeperAuthed := true), r) else c.(closing := true)
    case Race =>
      (match RaceOf(line)
       case NoRace => c
       case Chosen(_) => c.(resuming := false, state := Passphrase))
    case Passphrase => PhraseGiven(c, line, r)
    case Play => c.(closing := c.closing || r.quit)
  }

  /** A keeper's name has its token behind it from the race choice on, and nobody else is marked as a keeper. */
  predicate ConnOk(c: Conn, admins: seq<string>) {
    && (c.state == Name ==> !c.keeperAuthed)
    && (c.state == Token ==> ValidName(c.name) && IsAdmin(admins, c.name))
    && (c.state in {Race, Passphrase, Play} ==> ValidName(c.name) && (c.keeperAuthed <==> IsAdmin(admins, c.name)))
    && (c.state == Play ==> c.secretHash != "")
  }

  lemma LookUpKeepsOk(c: Conn, r: Reply, admins: seq<string>)
    requires ValidName(c.name) && (c.keeperAuthed <==> IsAdmin(admins, c.name))
    requires c.state == Name || c.state == Token
    requires c.state == Name ==> !c.keeperAuthed
    requires c.state == Token ==> IsAdmin(admins, c.name)
    ensures ConnOk(LookUp(c, r), admins)
  {
  }

  lemma PhraseKeepsOk(c: Conn, line: string, r: Reply, admins: seq<string>)
    requires ConnOk(c, admins) && c.state == Passphrase
    ensures ConnOk(PhraseGiven(c, line, r), admins)
  {
  }

  lemma ReceivedKeepsOk(c: Conn, input: string, admins: seq<string>, r: Reply)
    requires ConnOk(c, admins)
    ensures ConnOk(Received(c, input, admins, r), admins)
    ensures c.state == Play ==> Received(c, input, admins, r).state == Play
  {
    var line := Trimmed(input);
    match c.state
    case Name => if ValidName(line) && !IsAdmin(admins, line) { LookUpKeepsOk(c.(name := line), r, admins); }
    case Token => if r.tokenOk { LookUpKeepsOk(c.(keeperAuthed := true), r, admins); }
    case Race =>
    case Passphrase => PhraseKeepsOk(c, line, r, admins);
    case Play =>
  }

  // ---- Who gets through --------------------------------------------------------------------------------------

  /** The phrase on this line was good: right for the character's secret, or long enough to become the secret of a
      character without one. */
  predicate Proven(c: Conn, input: string, r: Reply) {
    && c.state == Passphrase && 8 <= |UpToNul(Trimmed(input))| <= 128
    && if c.secretHash == "" then r.newHash != "" else r.phraseMatches
  }

  /** One input brings a connection into play exactly from the passphrase, and exactly if the phrase was good; the
      secret it plays with is the one it had, or the new one. A phrase that is no good closes the connection and does
      nothing else. */
  lemma EntersExactlyWhen(c: Conn, input: string, admins: seq<string>, r: Reply)
    ensures var c' := Received(c, input, admins, r);
            && (c.state != Play && c'.state == Play <==> Proven(c, input, r))
            && (Proven(c, input, r) ==>
                  c' == c.(state := Play, secretHash := if c.secretHash == "" then r.newHash else c.secretHash))
            && (c.state == Passphrase && !Proven(c, input, r) ==> c' == c.(closing := true))
  {
  }

  /** The keeper mark appears exactly when the token is accepted, and is never lost; a refused token closes the
      connection and does nothing else. */
  lemma KeepersExactlyWhen(c: Conn, input: string, admins: seq<string>, r: Reply)
    ensures var c' := Received(c, input, admins, r);
            && (c'.keeperAuthed <==> c.keeperAuthed || (c.state == Token && r.tokenOk))
            && (c.state == Token && !r.tokenOk ==> c' == c.(closing := true))
  {
  }

  /** Whether an input leads on to the character's look-up: a valid name that is no keeper's, or a keeper's token. */
  predicate LooksUp(c: Conn, input: string, admins: seq<string>, r: Reply) {
    || (c.state == Name && ValidName(Trimmed(input)) && !IsAdmin(admins, Trimmed(input)))
    || (c.state == Token && r.tokenOk)
  }

  /** Where an input leads: a keeper's name to the token, a look-up that finds a record or a hub's word to the
      passphrase, one that finds neither to the races, a race to the passphrase, and play nowhere else. Names are
      taken from valid lines alone, and secrets from the record or the first phrase. */
  lemma LeadsExactlyWhen(c: Conn, input: string, admins: seq<string>, r: Reply)
    ensures var c', line, up := Received(c, input, admins, r), Trimmed(input), LooksUp(c, input, admins, r);
            && (c'.state == Name <==> c.state == Name && (!ValidName(line) || (up && r.load.LoadFailed?)))
            && (c'.state == Token <==> if c.state == Name then ValidName(line) && IsAdmin(admins, line)
                                       else c.state == Token && (!up || r.load.LoadFailed?))
            && (c'.state == Race <==>
                  (up && r.load.NoFile? && !r.hubKnows) || (c.state == Race && RaceOf(line).NoRace?))
            && (c'.state == Passphrase <==>
                  || (up && (r.load.Loaded? || (r.load.NoFile? && r.hubKnows)))
                  || (c.state == Race && RaceOf(line).Chosen?)
                  || (c.state == Passphrase && !Proven(c, input, r)))
            && c'.name == (if c.state == Name && ValidName(line) then line else c.name)
            && (!Proven(c, input, r) ==> c'.secretHash == if up && r.load.Loaded? then r.load.hash else c.secretHash)
            && (c.state == Play ==> c' == c.(closing := c.closing || r.quit))
            && (c.state in {Name, Race} ==> c'.closing == c.closing)
  {
  }

  // ---- All connections and the registry ----------------------------------------------------------------------

  datatype Server<T> = Server(conns: map<T, Conn>, slots: seq<Slot<T, nat>>, count: int)

  datatype Event<T> =
    | Connected(who: T)
    | Receive(who: T, input: string, wsi: nat, reply: Reply)
    | Closed(who: T)

  function Start<T>(): Server<T> { Server(map[], seq(MAX_SESSIONS, i => Vacant), 0) }

  /** A connection is opened once, and speaks only while it is open. */
  predicate Enabled<T>(s: Server<T>, e: Event<T>) {
    match e
    case Connected(who) => who !in s.conns
    case Receive(who, _, _, _) => who in s.conns
    case Closed(who) => who in s.conns
  }

  /** Entering play registers the session; closing a session in play unregisters it. */
  ghost function Step<T>(s: Server<T>, e: Event<T>, admins: seq<string>): Server<T>
    requires Enabled(s, e)
  {
    match e
    case Connected(who) => s.(conns := s.conns[who := FRESH])
    case Receive(who, input, wsi, reply) =>
      var c' := Received(s.conns[who], input, admins, reply);
      var s' := s.(conns := s.conns[who := c']);
      if s.conns[who].state != Play && c'.state == Play then
        s'.(slots := Registered(s.slots, who, wsi), count := s.count + Added(s.slots, who))
      else s'
    case Closed(who) =>
      var s' := s.(conns := s.conns - {who});
      if s.conns[who].state == Play then
        s'.(slots := Unregistered(s.slots, who), count := s.count - Dropped(s.slots, who))
      else s'
  }

  /** Every connection is in order, the table has no duplicates, and only open sessions in play are in it. */
  ghost predicate ServerOk<T>(s: Server<T>, admins: seq<string>) {
    && (forall who :: who in s.conns ==> ConnOk(s.conns[who], admins))
    && |s.slots| == MAX_SESSIONS && Distinct(s.slots) && s.count == Occupied(s.slots)
    && forall i :: 0 <= i < |s.slots| && s.slots[i].Held? ==>
         s.slots[i].who in s.conns && s.conns[s.slots[i].who].state == Play
  }

  lemma RegisteringStep<T>(slots: seq<Slot<T, nat>>, who: T, wsi: nat)
    requires Distinct(slots) && !Holds(slots, who)
    ensures var after := Registered(slots, who, wsi);
            |after| == |slots| && Distinct(after) && Occupied(after) == Occupied(slots) + Added(slots, who) &&
            forall i :: 0 <= i < |after| && after[i].Held? ==> after[i].who == who || after[i] == slots[i]
  {
    RegisterKeepsDistinctExactlyWhen(slots, who, wsi);
    RegisterCounts(slots, who, wsi);
  }

  lemma StepKeepsOk<T>(s: Server<T>, e: Event<T>, admins: seq<string>)
    requires ServerOk(s, admins) && Enabled(s, e)
    ensures ServerOk(Step(s, e, admins), admins)
    ensures e.Closed? ==> !Holds(Step(s, e, admins).slots, e.who)
  {
    match e
    case Connected(who) =>
    case Receive(who, input, wsi, reply) =>
      ReceivedKeepsOk(s.conns[who], input, admins, reply);
      if s.conns[who].state != Play { RegisteringStep(s.slots, who, wsi); }
    case Closed(who) =>
      if s.conns[who].state == Play {
        UnregisterRemoves(s.slots, who);
        if SlotOf(s.slots, who) < |s.slots| { assert Holds(s.slots, who); }
      }
  }

  ghost predicate ValidRun<T>(s: Server<T>, es: seq<Event<T>>, admins: seq<string>)
    decreases |es|
  {
    es == [] || (Enabled(s, es[0]) && ValidRun(Step(s, es[0], admins), es[1..], admins))
  }

  ghost function Run<T>(s: Server<T>, es: seq<Event<T>>, admins: seq<string>): Server<T>
    requires ValidRun(s, es, admins)
    decreases |es|
  {
    if es == [] then s else Run(Step(s, es[0], admins), es[1..], admins)
  }

  lemma {:induction false} RunKeepsOk<T>(s: Server<T>, es: seq<Event<T>>, admins: seq<string>)
    requires ServerOk(s, admins) && ValidRun(s, es, admins)
    ensures ServerOk(Run(s, es, admins), admins)
    decreases |es|
  {
    if es != [] {
      StepKeepsOk(s, es[0], admins);
      RunKeepsOk(Step(s, es[0], admins), es[1..], admins);
    }
  }

  /** Over every sequence of connections, inputs and closings, with any mix of failed loads and repeated tokens:
      whoever is in play has a valid name and a secret, and is marked as keeper exactly when the name is in the
      keeper list; no session occupies two registry slots, the count is the number of slots in use, and the
      sessions in the table are open and in play. */
  lemma EveryLoginIsSound<T>(es: seq<Event<T>>, admins: seq<string>)
    requires ValidRun(Start<T>(), es, admins)
    ensures var s := Run(Start<T>(), es, admins);
            && (forall who :: who in s.conns && s.conns[who].state == Play ==>
                  ValidName(s.conns[who].name) && s.conns[who].secretHash != "" &&
                  (s.conns[who].keeperAuthed <==> IsAdmin(admins, s.conns[who].name)))
            && Distinct(s.slots) && s.count == Occupied(s.slots)
            && forall i :: 0 <= i < |s.slots| && s.slots[i].Held? ==>
                 s.slots[i].who in s.conns && s.conns[s.slots[i].who].state == Play
  {
    OccupiedVacant<T, nat>(MAX_SESSIONS);
    RunKeepsOk(Start<T>(), es, admins);
  }

  /** After a connection is closed, in any run, no slot refers to it. */
  lemma ClosedLeavesTheTable<T>(es: seq<Event<T>>, who: T, admins: seq<string>)
    requires ValidRun(Start<T>(), es, admins) && Enabled(Run(Start<T>(), es, admins), Closed(who))
    ensures !Holds(Step(Run(Start<T>(), es, admins), Closed(who), admins).slots, who)
  {
    OccupiedVacant<T, nat>(MAX_SESSIONS);
    RunKeepsOk(Start<T>(), es, admins);
    StepKeepsOk(Run(Start<T>(), es, admins), Closed(who), admins);
  }

  /** Whoever enters play while a slot is free gets one, and keeps it whatever anybody does, until the connection is
      closed. */
  lemma EntryTakesASeat<T>(s: Server<T>, e: Event<T>, admins: seq<string>)
    requires ServerOk(s, admins) && e.Receive? && Enabled(s, e) && s.conns[e.who].state != Play
    requires Proven(s.conns[e.who], e.input, e.reply) && exists i :: 0 <= i < |s.slots| && s.slots[i].Vacant?
    ensures Holds(Step(s, e, admins).slots, e.who)
  {
    EntersExactlyWhen(s.conns[e.who], e.input, admins, e.reply);
    NewcomerSits(s.slots, e.who, e.wsi);
    RegisterCounts(s.slots, e.who, e.wsi);
  }

  lemma SeatOutlivesStep<T>(s: Server<T>, e: Event<T>, who: T, admins: seq<string>)
    requires ServerOk(s, admins) && Enabled(s, e) && Holds(s.slots, who) && e != Closed(who)
    ensures Holds(Step(s, e, admins).slots, who)
  {
    var k := SlotOf(s.slots, who);
    match e
    case Connected(_) =>
    case Receive(other, input, wsi, reply) =>
      if other == who { ReceivedKeepsOk(s.conns[who], input, admins, reply); }
      assert Step(s, e, admins).slots[k] == s.slots[k];
    case Closed(other) =>
      UnregisterRemoves(s.slots, other);
      assert Step(s, e, admins).slots[k] == s.slots[k];
  }

  lemma {:induction false} SeatIsKept<T>(s: Server<T>, es: seq<Event<T>>, who: T, admins: seq<string>)
    requires ServerOk(s, admins) && ValidRun(s, es, admins) && Holds(s.slots, who) && Closed(who) !in es
    ensures Holds(Run(s, es, admins).slots, who)
    decreases |es|
  {
    if es != [] {
      assert es[0] in es;
      SeatOutlivesStep(s, es[0], who, admins);
      StepKeepsOk(s, es[0], admins);
      SeatIsKept(Step(s, es[0], admins), es[1..], who, admins);
    }
  }

  // ---- What must have happened -------------------------------------------------------------------------------

  predicate InPlay<T>(s: Server<T>, who: T) { who in s.conns && s.conns[who].state == Play }

  predicate IsKeeper<T>(s: Server<T>, who: T) { who in s.conns && s.conns[who].keeperAuthed }

  /** Event `i` of a run. */
  ghost predicate HasPrefix<T>(s: Server<T>, es: seq<Event<T>>, i: nat, admins: seq<string>) {
    i < |es| && ValidRun(s, es[..i], admins)
  }

  lemma PrefixOfRest<T>(s: Server<T>, es: seq<Event<T>>, i: nat, admins: seq<string>)
    requires es != [] && ValidRun(s, es, admins) && HasPrefix(Step(s, es[0], admins), es[1..], i, admins)
    ensures HasPrefix(s, es, i + 1, admins)
    ensures Run(s, es[..i + 1], admins) == Run(Step(s, es[0], admins), es[1..][..i], admins)
  {
    assert es[..i + 1][1..] == es[1..][..i];
  }

  /** The good phrase that brought `who` into play: event `i` of the run, with no closing since. */
  ghost predicate ProvenAt<T>(s: Server<T>, es: seq<Event<T>>, who: T, i: nat, admins: seq<string>) {
    && HasPrefix(s, es, i, admins)
    && es[i].Receive? && es[i].who == who && Closed(who) !in es[i..]
    && (var before := Run(s, es[..i], admins);
        who in before.conns && Proven(before.conns[who], es[i].input, es[i].reply))
  }

  lemma {:induction false} PhraseWasGiven<T>(s: Server<T>, es: seq<Event<T>>, who: T, admins: seq<string>)
    returns (i: nat)
    requires ValidRun(s, es, admins) && InPlay(Run(s, es, admins), who)
    ensures ProvenAt(s, es, who, i, admins) || (InPlay(s, who) && Closed(who) !in es)
    decreases |es|
  {
    if es == [] {
      i := 0;
    } else {
      var s1 := Step(s, es[0], admins);
      var j := PhraseWasGiven(s1, es[1..], who, admins);
      if ProvenAt(s1, es[1..], who, j, admins) {
        PrefixOfRest(s, es, j, admins);
        assert es[j + 1..] == es[1..][j..];
        i := j + 1;
      } else {
        i := 0;
        assert es == [es[0]] + es[1..] && es[0..] == es && es[..0] == [];
        if !InPlay(s, who) { EntersExactlyWhen(s.conns[who], es[0].input, admins, es[0].reply); }
      }
    }
  }

  /** In every run, whoever is in play gave a good phrase, and has not closed since: the right one for a character with
      a secret, the first one for a character without. */
  lemma NobodyPlaysUnproven<T>(es: seq<Event<T>>, who: T, admins: seq<string>) returns (i: nat)
    requires ValidRun(Start<T>(), es, admins) && InPlay(Run(Start<T>(), es, admins), who)
    ensures ProvenAt(Start<T>(), es, who, i, admins)
  {
    i := PhraseWasGiven(Start<T>(), es, who, admins);
  }

  /** The accepted token behind a keeper's mark: event `i` of the run, with no closing since. */
  ghost predicate TokenAt<T>(s: Server<T>, es: seq<Event<T>>, who: T, i: nat, admins: seq<string>) {
    && HasPrefix(s, es, i, admins)
    && es[i].Receive? && es[i].who == who && Closed(who) !in es[i..]
    && (var before := Run(s, es[..i], admins);
        who in before.conns && before.conns[who].state == Token && es[i].reply.tokenOk)
  }

  lemma {:induction false} TokenWasGiven<T>(s: Server<T>, es: seq<Event<T>>, who: T, admins: seq<string>)
    returns (i: nat)
    requires ValidRun(s, es, admins) && IsKeeper(Run(s, es, admins), who)
    ensures TokenAt(s, es, who, i, admins) || (IsKeeper(s, who) && Closed(who) !in es)
    decreases |es|
  {
    if es == [] {
      i := 0;
    } else {
      var s1 := Step(s, es[0], admins);
      var j := TokenWasGiven(s1, es[1..], who, admins);
      if TokenAt(s1, es[1..], who, j, admins) {
        PrefixOfRest(s, es, j, admins);
        assert es[j + 1..] == es[1..][j..];
        i := j + 1;
      } else {
        i := 0;
        assert es == [es[0]] + es[1..] && es[0..] == es && es[..0] == [];
        if !IsKeeper(s, who) && es[0].Receive? {
          KeepersExactlyWhen(s.conns[who], es[0].input, admins, es[0].reply);
        }
      }
    }
  }

  /** In every run, whoever bears the keeper mark has had a token accepted, and has not closed since. */
  lemma NoKeeperWithoutToken<T>(es: seq<Event<T>>, who: T, admins: seq<string>) returns (i: nat)
    requires ValidRun(Start<T>(), es, admins) && IsKeeper(Run(Start<T>(), es, admins), who)
    ensures TokenAt(Start<T>(), es, who, i, admins)
  {
    i := TokenWasGiven(Start<T>(), es, who, admins);
  }
}
