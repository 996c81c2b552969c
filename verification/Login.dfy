/** The connection callback of `asm/session.asm` and the keeper list of `asm/social_ledger.asm`, on session blocks. */
module Login {
  import opened CStrings
  import opened Sessions
  import opened Registry
  import opened LoginSpec
  import opened CombatWorld

  ghost function ConnOf(s: Session): Conn
    reads s`state, s`name, s`secretHash, s`keeperAuthed, s`resuming, s`closing
  {
    Conn(s.state, s.name, s.secretHash, s.keeperAuthed, s.resuming, s.closing)
  }

  /** `HG_EVT_CONNECTED`: a fresh connection. */
  method OnConnected(wsi: nat) returns (s: Session)
    ensures fresh(s) && ConnOf(s) == FRESH && s.wsi == wsi
  {
    s := new Session(wsi);
  }

  /** Copy at most 255 bytes, then drop blanks and line ends from the tail and blanks from the head. */
  method TrimInput(input: string) returns (line: string)
    ensures line == Trimmed(input)
  {
    line := CopyCap(input, INPUT_MAX + 1);
    while line != "" && TailBlank(line[|line| - 1])
      invariant DropTail(line) == DropTail(CopyCap(input, INPUT_MAX + 1))
      decreases |line|
    {
      line := line[..|line| - 1];
    }
    while line != "" && HeadBlank(line[0])
      invariant DropHead(line) == Trimmed(input)
      decreases |line|
    {
      line := line[1..];
    }
  }

  method CheckName(s: string) returns (ok: bool)
    ensures ok <==> ValidName(s)
  {
    if |s| < 2 || |s| > 32 {
      return false;
    }
    for i := 0 to |s|
      invariant forall k :: 0 <= k < i ==> NameChar(s[k])
    {
      if !NameChar(s[i]) {
        return false;
      }
    }
    ok := true;
  }

  method FindRace(line: string) returns (r: Choice)
    ensures r == RaceOf(line)
  {
    if |line| == 1 && '1' <= line[0] <= '7' {
      return Chosen(RACES[line[0] as int - '1' as int]);
    }
    var i := 0;
    while i < |RACES|
      invariant 0 <= i <= |RACES| && RaceNamed(line, 0) == RaceNamed(line, i)
    {
      if EqNoCase(UpToNul(line), RACES[i]) {
        return Chosen(RACES[i]);
      }
      i := i + 1;
    }
    r := NoRace;
  }

  /** `.find_end`: from the start of a word to its end. */
  method FindEnd(s: string, start: nat) returns (end: nat)
    requires start <= |s|
    ensures end == start + WordEnd(s[start..])
  {
    end := start;
    while end < |s| && !Separator(s[end])
      invariant start <= end <= |s| && WordEnd(s[start..]) == end - start + WordEnd(s[end..])
    {
      assert s[end..][1..] == s[end + 1..];
      end := end + 1;
    }
  }

  /** `admins_ensure`: split the variable into at most sixteen keepers of at most 32 characters. */
  method AdminsEnsure(env: string) returns (admins: seq<string>)
    ensures admins == Keepers(env)
  {
    admins := SplitKeepers(if env == "" then "skyphusion" else env);
  }

  /** The keepers found in the text before `i`, and those its rest will give. */
  ghost predicate HalfSplit(s: string, i: nat, admins: seq<string>) {
    i <= |s| && |admins| <= MAX_KEEPERS &&
    FirstCut(Words(s), MAX_KEEPERS) == admins + FirstCut(Words(s[i..]), MAX_KEEPERS - |admins|)
  }

  method SplitKeepers(s: string) returns (admins: seq<string>)
    ensures admins == FirstCut(Words(s), MAX_KEEPERS)
  {
    var i := 0;
    admins := [];
    assert s[0..] == s;
    while i < |s| && |admins| < MAX_KEEPERS
      invariant HalfSplit(s, i, admins)
    {
      i, admins := SplitStep(s, i, admins);
    }
    NoMoreWords(s, i, MAX_KEEPERS - |admins|);
  }

  /** Step over a separator, or take the word that starts here. */
  method SplitStep(s: string, i: nat, admins: seq<string>) returns (i': nat, admins': seq<string>)
    requires HalfSplit(s, i, admins) && i < |s| && |admins| < MAX_KEEPERS
    ensures HalfSplit(s, i', admins') && i < i'
  {
    if Separator(s[i]) {
      NoWord(s, i);
      i', admins' := i + 1, admins;
    } else {
      i' := FindEnd(s, i);
      NextKeeper(s, i, i', admins);
      admins' := admins + [CopyCap(s[i..i'], 33)];
    }
  }

  lemma NextKeeper(s: string, i: nat, end: nat, admins: seq<string>)
    requires i < |s| && !Separator(s[i]) && end == i + WordEnd(s[i..]) && |admins| < MAX_KEEPERS
    ensures i < end <= |s|
    ensures admins + FirstCut(Words(s[i..]), MAX_KEEPERS - |admins|) ==
            (admins + [CopyCap(s[i..end], 33)]) + FirstCut(Words(s[end..]), MAX_KEEPERS - |admins| - 1)
  {
    NextWord(s, i, end);
    NextCut(admins, s[i..end], Words(s[end..]), MAX_KEEPERS - |admins|);
  }

  lemma NoWord(s: string, i: nat)
    requires i < |s| && Separator(s[i])
    ensures Words(s[i..]) == Words(s[i + 1..])
  {
    assert s[i..][1..] == s[i + 1..];
  }

  lemma NoMoreWords(s: string, i: nat, max: nat)
    requires i <= |s| && (i == |s| || max == 0)
    ensures FirstCut(Words(s[i..]), max) == []
  {
  }

  lemma NextCut(before: seq<string>, w: string, ws: seq<string>, max: nat)
    requires max > 0
    ensures before + FirstCut([w] + ws, max) == before + [CopyCap(w, 33)] + FirstCut(ws, max - 1)
  {
    assert ([w] + ws)[1..] == ws;
  }

  lemma NextWord(s: string, i: nat, end: nat)
    requires i < |s| && !Separator(s[i]) && end == i + WordEnd(s[i..])
    ensures Words(s[i..]) == [s[i..end]] + Words(s[end..]) && end > i
  {
    assert s[i..][..end - i] == s[i..end] && s[i..][end - i..] == s[end..];
  }

  method HgIsAdmin(admins: seq<string>, name: string) returns (yes: bool)
    ensures yes <==> IsAdmin(admins, name)
  {
    for i := 0 to |admins|
      invariant forall k :: 0 <= k < i ==> !EqNoCase(admins[k], name)
    {
      if EqNoCase(admins[i], name) {
        return true;
      }
    }
    yes := false;
  }

  /** `.after_admin_check` to `.begin_passphrase`. */
  method LookUpCharacter(s: Session, r: Reply)
    modifies s`state, s`secretHash, s`resuming
    ensures ConnOf(s) == LookUp(old(ConnOf(s)), r)
  {
    match r.load
    case LoadFailed =>
    case Loaded(hash) =>
      s.secretHash, s.resuming, s.state := hash, true, Passphrase;
    case NoFile =>
      if r.hubKnows {
        s.resuming, s.state := true, Passphrase;
      } else {
        s.state := Race;
      }
  }

  /** `.name` and `.save_name`. */
  method NameInput(s: Session, line: string, admins: seq<string>, r: Reply)
    modifies s`state, s`name, s`secretHash, s`resuming
    ensures ConnOf(s) == NameGiven(old(ConnOf(s)), line, admins, r)
  {
    var valid := CheckName(line);
    if valid {
      s.name := line;
      var admin := HgIsAdmin(admins, line);
      if admin {
        s.state := Token;
      } else {
        LookUpCharacter(s, r);
      }
    }
  }

  /** `.passphrase`. */
  method PassphraseInput(s: Session, line: string, r: Reply)
    modifies s`state, s`secretHash, s`closing
    ensures ConnOf(s) == PhraseGiven(old(ConnOf(s)), line, r)
  {
    if s.secretHash == "" {
      if PhraseOk(line) && r.newHash != "" {
        s.secretHash, s.state := r.newHash, Play;
      } else {
        s.closing := true;
      }
    } else if PhraseOk(line) && r.phraseMatches {
      s.state := Play;
    } else {
      s.closing := true;
    }
  }

  /** The login half of the receive callback. `entered` says the input brought the session into play. */
  method LoginInput(s: Session, input: string, admins: seq<string>, r: Reply) returns (entered: bool)
    modifies s`state, s`name, s`race, s`secretHash, s`keeperAuthed, s`resuming, s`closing
    ensures ConnOf(s) == Received(old(ConnOf(s)), input, admins, r)
    ensures entered <==> old(s.state) != Play && s.state == Play
    ensures old(s.state) == Race && RaceOf(Trimmed(input)).Chosen? ==> s.race == RaceOf(Trimmed(input)).race
  {
    var was := s.state;
    var line := TrimInput(input);
    match was {
      case Name =>
        NameInput(s, line, admins, r);
      case Token =>
        if r.tokenOk {
          s.keeperAuthed := true;
          LookUpCharacter(s, r);
        } else {
          s.closing := true;
        }
      case Race =>
        var choice := FindRace(line);
        if choice.Chosen? {
          s.race, s.resuming, s.state := choice.race, false, Passphrase;
        }
      case Passphrase =>
        PassphraseInput(s, line, r);
      case Play =>
        s.closing := s.closing || r.quit;
    }
    entered := was != Play && s.state == Play;
  }

  /** `HG_EVT_RECEIVE`: whoever enters play takes a slot of the registry, and nobody else does. */
  method OnReceive(arena: Arena, s: Session, input: string, wsi: nat, admins: seq<string>, r: Reply)
    requires arena.Sized()
    modifies s`state, s`name, s`race, s`secretHash, s`keeperAuthed, s`resuming, s`closing, s`wsi
    modifies arena`sessionCount, arena.table, arena.wsis
    ensures ConnOf(s) == Received(old(ConnOf(s)), input, admins, r)
    ensures arena.Handles() == if old(s.state) != Play && s.state == Play
                               then Registered(old(arena.Handles()), s, wsi) else old(arena.Handles())
    ensures arena.sessionCount == old(arena.sessionCount) + if old(s.state) != Play && s.state == Play
                                                            then Added(old(arena.Handles()), s) else 0
  {
    s.wsi := wsi;
    var entered := LoginInput(s, input, admins, r);
    if entered {
      arena.SessionRegister(s, wsi);
    }
  }

  /** `HG_EVT_CLOSED`: a session in play leaves its slot. */
  method OnClosed(arena: Arena, s: Session)
    requires arena.Sized()
    modifies s`wsi, arena`sessionCount, arena.table, arena.wsis
    ensures arena.Handles() == if s.state == Play then Unregistered(old(arena.Handles()), s) else old(arena.Handles())
    ensures arena.sessionCount ==
            old(arena.sessionCount) - if s.state == Play then Dropped(old(arena.Handles()), s) else 0
  {
    if s.state == Play {
      arena.SessionUnregister(s);
    }
  }
}
