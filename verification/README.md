# Verified model of the Basalt Relay engine

Basalt Relay is a single-threaded game server whose rules live in NASM assembly, with a thin C layer for sockets and
text formatting. This project models the engine's state changes in Dafny and proves what they keep: over whole runs
of the server where the engine runs on and on, and over every input where it transforms text or records.

Each component has two layers. A layer of functions on values says what one step does, and the theorems about every
run are proved there. A layer of classes and methods follows the engine's own loops, arrays and in-place updates, and
each method is proved to take exactly the step its function describes. `dafny verify dfyconfig.toml` checks all of it.

| component | modules | main results |
|---|---|---|
| combat clock | `Combat`, `CombatSafety`, `CombatAccounts`, `CombatWorld` | over every run of commands, joins, leaves and heartbeats: rounds of a session are 2000 ms apart, a rat's life has at most three rounds and pays once, nobody's hit points leave their range, no fight outlives its rat, and from entry to exit a session gains exactly the experience logged for it |
| session registry | `Registry`, `CombatWorld`, `LoginSpec` | no session twice in the table, the count is the slots in use, and a closed session is gone, holes or not |
| login | `LoginSpec`, `Login` | over every sequence of inputs on any number of connections, whoever is in play has a valid name, a secret, and the keeper mark exactly when listed as a keeper; nobody plays without having given a good phrase, and nobody bears the mark without an accepted token |
| sockets | `OutQueue`, `Reassembly` | output is never reordered, repeated or lost except by the full buffer; fragmentation does not matter |
| LocalHub store | `GridSpec`, `GridLocal` | the shifting buffers, the cast ring, prune and the histogram refine simple sequences; when the prune report adds up |
| character files | `SaveCrash`, `StoreRecord`, `Store` | a crash at any step leaves the old record or the new one; a save fails exactly when a call it depends on does; load undoes save |
| JSON text | `Json`, `Players` | a parser written from RFC 8259 reads back exactly what was printed, and what it reads says exactly who is there and how they stand |
| moral arc and ledgers | `MoralSpec`, `Moral`, `Ledgers`, `Finder` | straying is exactly having been found at the floor, redemption exactly having found the way open, "the Returned" is earned, counts are true and pairs rewarded once while the tables have room |
| gold and items | `Gold`, `Bags` | gold is conserved; a hand-over conserves items exactly when the taker has room |

`CStrings` holds the C string operations, `Picks` the parts of a sequence that filters leave, `Sessions` the session block that the components share, and `Seating` what
the walks over the session table see of it.

Assumptions about the surroundings: the clock is positive and never goes back; a session enters play out of combat,
with a live socket handle and hit points between 1 and its maximum; text fields hold C strings without NUL. What a
clock, a file, the federation hub or a password hash answers is a parameter, and the theorems hold for every answer.

## Where the code does less than it seems to promise

Each of these has its exact condition in the model.

- A second registration of a session that is already in the table, with an empty slot in front of it, would enter it
  twice (`Registry.RegisterKeepsDistinctExactlyWhen`). Login registers a session only on the one-way step into play,
  so no run gets there (`LoginSpec.EveryLoginIsSound`).
- The three numbers of `gridprune` can disagree when the store holds more than 32 kinds
  (`GridSpec.PruneReportCanDisagree`, `GridSpec.PruneReportAddsUpExactlyWhen`). The local recorders use nine kinds
  between them, so on a local store the numbers always add up (`GridSpec.LocalPruneReportAddsUp`); only a remote hub's
  answer can make them disagree.
- A player who starts in play at the floor of morality without the mark of straying can rise again without ever being
  marked (`MoralSpec.MarkCanBeMissed`, `MoralSpec.StrayedExactlyWhen`). A merge with the hub writes the morality and not
  the mark (`asm/grid_policy.asm` line 224), and `steal` and the dais pledge save before they look at the arc.
- `give` to a full inventory destroys the item (`Bags.HandOverConservesExactlyWhen`).
- A pair that meets a full table of forgiven or kept pairs is rewarded every time
  (`Ledgers.RewardedOnceExactlyWhen`), and the deeds of a sixty-fifth name are not counted
  (`Ledgers.CountsAreTrueExactlyWhen`).
- `forgive` looks its target up with nobody left out, so a prefix of one's own name can find oneself
  (`Finder.FindsOneselfExactlyWhen`); the arc's theorems cover that case.
- An inventory with an empty slot before an item comes back shifted, and a number that no double holds comes back
  changed (`StoreRecord.LoadUndoesSaveExactlyWhen`).

## Model

| member | source | states |
|---|---|---|
| `CombatSafety.EveryRunIsSafe` | asm/combat.asm:359-458 | Over every run from boot: two rounds of one session are at least 2000 ms apart; all fighters together need at most three rounds for a rat, so a living one has taken at most two, suffer at most 8 damage from it and are paid 8 experience once, at its death; the rat is alive with 1 to 12 hit points and no death time, or dead with 0 and a death time; hit points of registered sessions stay in 1..max; no session is in the table twice and the count is the slots in use |
| `CombatSafety.NoFightOutlivesItsRat` | asm/combat.asm:804-877 | In every run, a heartbeat brings a dead rat back if and only if 20 s have passed since its death, and then no registered session is in combat |
| `CombatAccounts.RunPays` | asm/combat.asm:424-448 | Over every run until a session leaves, the experience it gains is exactly the sum of the awards logged for it |
| `CombatAccounts.PaidSinceEntry` | asm/combat.asm:424-448 | A session that finds a slot on entering has, until it leaves, the experience it came with and what was logged since |
| `CombatAccounts.PulseIsHonest` | asm/combat.asm:359-458 | A pulse fights exactly the due round, once: 8 or 5 off the rat by the weapon, 8 experience for the kill, else 4 points of harm, and a fighter with no more than that wakes whole at the nexus; experience and hit points change by what the log says; no other slot changes |
| `CombatAccounts.PulseArmsAndWires` | asm/combat.asm:600-633 | A fighter without a timer is armed for 2000 ms later and waits; one without a socket takes the registry's; one with neither is passed over |
| `CombatAccounts.PulseFromPays` | asm/combat.asm:816-832 | A pass over the table pays every session exactly what it logs for it |
| `CombatAccounts.BeatPays` | asm/combat.asm:804-877 | So does a whole heartbeat |
| `CombatAccounts.StepPays` | asm/combat.asm:782-1190 | So does every event, and no command pays anything |
| `CombatAccounts.RestingHeals` | asm/combat.asm:558-580 | `n` ticks give an idle, resting session 2n hit points up to its maximum, and do nothing to anyone else |
| `CombatAccounts.TickWires` | asm/combat.asm:539-557 | A tick refreshes the socket and heals nobody without one |
| `CombatAccounts.BeatTicksExactlyWhen` | asm/combat.asm:833-843 | A heartbeat ticks the world if and only if 2000 ms have passed since the last tick |
| `CombatAccounts.TicksAreSpaced` | asm/combat.asm:833-843 | Over every run in which nobody rests, ticks are at least 2000 ms apart |
| `CombatAccounts.AttackEngagesExactlyWhen` | asm/combat.asm:956-1010 | An idle registered session is in combat afterwards if and only if it stood in the tunnels, the rat lived and the word was one of its three names in any case |
| `CombatAccounts.RestExactlyWhen` | asm/combat.asm:1127-1153 | Out of combat, resting lays the session down and the next heartbeat ticks; in combat nothing happens |
| `CombatAccounts.MendMoves` | asm/social.asm:872-951 | If and only if the patient is hurt and the healer has more than 5, the healer loses 5 and the patient gains 10 or what was missing |
| `CombatAccounts.TreatHealsExactlyWhen` | asm/social.asm:814-870 | The medic heals, fully, exactly the idle, unbranded wounded at the waystation |
| `CombatSafety.BeatKeepsSafe` | asm/combat.asm:804-877 | One heartbeat keeps the safety invariant, leaves no overdue round, respawns the rat exactly when it is due, and never otherwise changes a dead rat |
| `CombatSafety.PulseKeepsSafe` | asm/combat.asm:593-649 | One pulse keeps the safety invariant, including the spacing of rounds in the event log |
| `CombatSafety.RoundIsSpaced` | asm/combat.asm:634-642 | A due round is a whole period after its fighter's earlier rounds, and the next is due a whole period later |
| `CombatSafety.DueRoundKeepsSafe` | asm/combat.asm:634-642 | A due round keeps the invariant of every fighter at once, also of those who share the rat it kills |
| `CombatSafety.PulseFromKeepsSafe` | asm/combat.asm:816-832 | Pulsing the table leaves every remaining fighter waiting for a later time, and only a living rat can change |
| `CombatSafety.RoundKeepsLife` | asm/combat.asm:386-450 | A round keeps the relation between the rat's hit points and the rounds, damage and awards of its current life |
| `CombatSafety.WorldBeatKeepsSafe` | asm/combat.asm:833-853 | Regeneration keeps the invariant and touches neither the rat, nor fights, nor timers |
| `CombatSafety.PutKeepsSafe` | asm/combat.asm:956-1010 | Rewriting one session's fighter keeps the invariant whenever the new fighter is in order |
| `CombatSafety.PutByNameKeepsSafe` | asm/combat.asm:956-1010 | The same for a session by name, which changes no other session and nothing at all for one without a slot |
| `CombatSafety.AttackKeepsSafe` | asm/combat.asm:956-1010 | An attack keeps the invariant, by a registered session or by one that found the table full |
| `CombatSafety.JoinKeepsSafe` | asm/combat.asm:715-745 | A session entering play keeps the invariant |
| `CombatSafety.LeaveKeepsSafe` | asm/combat.asm:749-776 | A session leaving keeps the invariant and is in no slot afterwards |
| `CombatSafety.MendKeepsSafe` | asm/social.asm:872-951 | Healing one player at another's cost keeps both within 1..max |
| `CombatSafety.StepKeepsSafe` | asm/combat.asm:782-1190 | Every event the combat state can meet keeps the invariant |
| `CombatSafety.BootIsSafe` | asm/combat.asm:676-703 | The world starts in the invariant |
| `CombatSafety.RunKeepsSafe` | asm/combat.asm:782-1190 | Every run from a safe world ends in a safe world |
| `CombatWorld.Arena.constructor` | asm/combat.asm:676-703 | Boot leaves an empty table, a rat of 12 hit points, and cleared clocks |
| `CombatWorld.Arena.HgHeartbeat` | asm/combat.asm:804-877 | The three passes in place are exactly one beat of the abstract world: pulses, then the gated world tick, then the respawn check |
| `CombatWorld.Arena.PulseAll` | asm/combat.asm:816-832 | The loop over the slots equals pulsing the slots in order, each seeing the rat the earlier ones left |
| `CombatWorld.Arena.SessionPulse` | asm/combat.asm:593-649 | One session's pulse changes its slot and the rat as specified, and nobody else |
| `CombatWorld.Arena.Cadence` | asm/combat.asm:622-643 | A fighter with no timer arms it, one before its time waits, and one at its time fights a round and re-arms |
| `CombatWorld.Arena.CombatRound` | asm/combat.asm:359-458 | The outcomes of a round for the fighter, the rat and the event log: target gone, rat killed, fighter hurt, fighter dead and back at the nexus |
| `CombatWorld.Arena.FindWsi` | asm/combat.asm:600-621 | A session without a socket handle gets the registry's copy, or none if it has no slot |
| `CombatWorld.Arena.TickSession` | asm/combat.asm:526-592 | A connected, resting session out of combat regains 2 hit points, capped at its maximum |
| `CombatWorld.Arena.TickEverySession` | asm/combat.asm:844-855 | The second pass ticks each slot exactly once |
| `CombatWorld.Arena.WorldGate` | asm/combat.asm:833-853 | At most one world tick per 2000 ms of heartbeat time |
| `CombatWorld.Arena.RespawnOnly` | asm/combat.asm:856-871 | The rat returns with full hit points exactly when its timer is due |
| `CombatWorld.Arena.SessionRegister` | asm/combat.asm:715-745 | Registration of a session not in the table is the abstract join; for any session and any table the slots change as `Registered` says |
| `CombatWorld.Arena.TakeSlot` | asm/combat.asm:715-745 | One slot is written or none, and the counter moves only when an empty slot is filled |
| `CombatWorld.Arena.FindSlot` | asm/combat.asm:727-735 | The search stops at the first slot that is empty or already the session's |
| `CombatWorld.Arena.SessionUnregister` | asm/combat.asm:749-776 | The session's handle is cleared, its slot emptied, the count follows, and it is no member of the table any more |
| `CombatWorld.Arena.CmdAttack` | asm/combat.asm:956-1010 | An attack on the named rat in the tunnels engages any session in play, with or without a slot, with the first swing one period away; otherwise nothing changes |
| `CombatWorld.Arena.Engage` | asm/combat.asm:782-802 | Arming changes the actor and nobody else |
| `CombatWorld.Arena.CmdRest` | asm/combat.asm:1127-1153 | Resting out of combat also resets the heartbeat time, so the next beat ticks, whoever rests |
| `CombatWorld.Arena.CmdMend` | asm/social.asm:872-951 | Mending costs the healer 5 and gives a patient from the table up to 10, only for a hurt patient and a healer above 5 |
| `CombatWorld.Arena.CmdTreat` | asm/social.asm:814-870 | The medic restores full hit points to an unbranded, wounded session at the waystation out of combat, as one step of the run |
| `Registry.RegisterKeepsDistinctExactlyWhen` | asm/combat.asm:715-745 | Registering keeps the table free of duplicates if and only if the session is not in it or has no hole in front of it |
| `Registry.RegisterCounts` | asm/combat.asm:736-745 | The number of slots in use grows by one exactly when an empty slot was taken, and the session is then in the table |
| `Registry.NewcomerSits` | asm/combat.asm:715-745 | A newcomer to a table with room sits in one slot that was empty, with its own socket, and nobody else has moved |
| `Registry.UnregisterRemoves` | asm/combat.asm:749-776 | After unregistering no slot refers to the session, other slots are untouched, and the count drops exactly if it was there |
| `Registry.OccupiedAfterWrite` | asm/combat.asm:736-741 | How one slot write changes the number of slots in use |
| `LoginSpec.EveryLoginIsSound` | asm/session.asm:207-583 | Over every sequence of connections, inputs and closings: in play means a valid name, a non-empty secret hash, and the keeper mark exactly for listed keepers; the registry has no duplicates, counts right, and holds only open sessions in play |
| `LoginSpec.ClosedLeavesTheTable` | asm/session.asm:560-571 | In every run, after a connection closes no registry slot refers to it |
| `LoginSpec.NobodyPlaysUnproven` | asm/session.asm:418-490 | In every run, whoever is in play gave, and has not closed since, a phrase of 8 to 128 bytes that matched the character's secret, or became the secret of a character without one |
| `LoginSpec.NoKeeperWithoutToken` | asm/session.asm:350-365 | In every run, whoever bears the keeper mark has had a token accepted and has not closed since |
| `LoginSpec.EntersExactlyWhen` | asm/session.asm:418-490 | One input enters play if and only if it is such a phrase at the passphrase prompt; the secret is kept or set; any other phrase closes the connection and does nothing else |
| `LoginSpec.KeepersExactlyWhen` | asm/session.asm:350-365 | The keeper mark appears exactly with an accepted token; a refused one closes the connection and does nothing else |
| `LoginSpec.LeadsExactlyWhen` | asm/session.asm:305-541 | For every state and input, which state comes next, which name and which secret the connection has, and what leaves it as it was |
| `LoginSpec.EntryTakesASeat` | asm/session.asm:438-490 | Whoever enters play while a slot is free is in the registry |
| `LoginSpec.SeatIsKept` | asm/session.asm:560-571 | And stays there, whatever anybody does, until the connection closes |
| `LoginSpec.ValidNameExactlyWhen` | asm/session.asm:169-204 | A valid name is 2 to 32 characters of digits, letters, hyphen and underscore |
| `LoginSpec.RaceExactlyWhen` | asm/session.asm:500-529 | A line chooses a race if and only if it is its number or its name in any case |
| `LoginSpec.DefaultKeeper` | asm/social_ledger.asm:196-215 | Without the variable there is exactly one keeper |
| `LoginSpec.StepKeepsOk` | asm/session.asm:207-583 | Each event on any connection keeps the invariant of all connections and the registry |
| `LoginSpec.RunKeepsOk` | asm/session.asm:207-583 | So does every sequence of events |
| `LoginSpec.ReceivedKeepsOk` | asm/session.asm:305-541 | One input line keeps a connection in order, failed loads and retried tokens included, and play is never left |
| `LoginSpec.RegisteringStep` | asm/session.asm:438-490 | Entering play adds one session to the table at most and disturbs no other slot |
| `LoginSpec.TrimmedIsTrimmed` | asm/session.asm:263-304 | The line is the input cut to 255 bytes minus leading blanks and trailing blanks and line ends, and loses nothing else |
| `LoginSpec.WordsAreTheRuns` | asm/social_ledger.asm:217-245 | The words of the keeper list are exactly its maximal runs without separators, each once, from left to right |
| `Login.TrimInput` | asm/session.asm:263-304 | The trimming loops compute that line |
| `Login.CheckName` | asm/session.asm:169-204 | Accepts exactly names of 2 to 32 letters, digits, hyphens and underscores |
| `Login.FindRace` | asm/session.asm:500-529 | A digit 1 to 7 or a race name in any case chooses that race, anything else none |
| `Login.FindEnd` | asm/social_ledger.asm:233-245 | Finds the end of a keeper's name in the list |
| `Login.AdminsEnsure` | asm/social_ledger.asm:196-272 | Yields the first sixteen words of the variable, each cut to 32 characters, or the default keeper when it is empty |
| `Login.HgIsAdmin` | asm/social_ledger.asm:277-310 | True exactly for names in the list, in any case |
| `Login.LookUpCharacter` | asm/session.asm:366-409 | After the name: a failed load stays, a record resumes with its hash, a hub record resumes without, a new character chooses a race |
| `Login.NameInput` | asm/session.asm:320-349 | An invalid name changes nothing; a keeper's name asks for the token; any other goes to the look-up |
| `Login.PassphraseInput` | asm/session.asm:418-490 | A first phrase sets the secret, a later one must match it, and a phrase that will not do closes the connection |
| `Login.LoginInput` | asm/session.asm:260-541 | The session block follows the state machine on every input, and entering play is reported exactly when it happens |
| `Login.OnReceive` | asm/session.asm:260-541 | Only the input that enters play registers the session, and the session count follows |
| `Login.OnClosed` | asm/session.asm:560-571 | Closing a session in play unregisters it and the session count follows; closing any other leaves the registry alone |
| `Sessions.Session.constructor` | asm/session.asm:231-248 | The starting values of all of a connection's fields |
| `Login.OnConnected` | asm/session.asm:231-248 | A new session is a fresh connection of the login machine |
| `OutQueue.NothingLostOrReordered` | asm/session.asm:111-145 | Over every interleaving of messages and writes, sent bytes followed by pending bytes are a prefix of each message in turn, and the buffer never overflows |
| `OutQueue.WholeMessagesExactlyWhen` | asm/session.asm:111-145 | Every message gets through whole if and only if none met a buffer without room for it |
| `OutQueue.CutOnlyWhenFull` | asm/session.asm:120-136 | A message is cut only by filling the buffer to its last byte |
| `OutQueue.SuccessSendsAll` | asm/session.asm:542-553 | A write that succeeds leaves nothing pending and everything taken so far sent; one that fails changes nothing |
| `OutQueue.OutBuffer.constructor` | asm/session.asm:231-259 | A new session has nothing pending |
| `OutQueue.OutBuffer.SessionQueue` | asm/session.asm:111-145 | Queueing on the fixed buffer is one step of that history |
| `OutQueue.OutBuffer.Writable` | asm/session.asm:542-553 | A write hands over all pending bytes, and only success empties the buffer |
| `Reassembly.FragmentsDoNotMatter` | ffi/lws_shim.c:119-153 | However a message is cut, the engine receives it whole if and only if it has 1 to 255 bytes, the client one notice if and only if it has more, and nobody anything if it is empty; the buffer is empty again |
| `Reassembly.EveryMessageGetsItsDue` | ffi/lws_shim.c:119-153 | The same for every stream of messages, in order |
| `Reassembly.MessageFrom` | ffi/lws_shim.c:119-153 | The same from any partial state: what is collected counts, and an overflow lasts to the end of the message |
| `Reassembly.BinaryDropsPartial` | ffi/lws_shim.c:119-126 | A binary frame is ignored and drops what was collected |
| `Reassembly.RxBuffer.constructor` | ffi/lws_shim.c:104-118 | A new session has collected nothing |
| `Reassembly.RxBuffer.Receive` | ffi/lws_shim.c:119-153 | One frame on the fixed buffer and its signed length is one step of that machine |
| `GridSpec.MeaningfulTracesLast` | asm/grid_local.asm:252-362 | Over every sequence of records, prunes and registrations, a trace that is not ambient is still held while fewer than 200 newer ones have been recorded, no deeper than their number, and changed in nothing but the address a registration rewrites |
| `GridSpec.KeptIsNewest` | asm/grid_local.asm:284-312 | Prepending to a bounded buffer keeps it equal to the newest entries ever recorded |
| `GridSpec.Fold` | asm/grid_local.asm:252-362 | The trace store never exceeds 200 entries whatever is done to it |
| `GridSpec.TruncationKeepsAmbient` | asm/grid_local.asm:694-733 | Cutting a kind to 23 bytes never changes whether it is ambient |
| `GridSpec.PruneTwice` | asm/grid_local.asm:694-749 | A second prune removes nothing |
| `GridSpec.MeaningfulSplit` | asm/grid_local.asm:694-749 | Prune keeps order: it distributes over concatenation |
| `GridSpec.MeaningfulIsExact` | asm/grid_local.asm:694-749 | Prune keeps exactly the traces that are not ambient, in order |
| `GridSpec.ReaddressedExactly` | asm/grid_local.asm:650-674 | Only the first trace of the registering world gets the new address |
| `GridSpec.SurvivorAt` | asm/grid_local.asm:694-749 | A trace that is not ambient survives prune, at the same place or nearer the front |
| `GridSpec.HistogramTotal` | asm/grid_local.asm:921-1000 | The rows have distinct kinds, and with no more kinds than rows their counts sum to the number of traces |
| `GridSpec.KindsByAppearance` | asm/grid_local.asm:940-986 | Kinds are listed in the order of their first appearance |
| `GridSpec.CountInIsACount` | asm/grid_local.asm:948-983 | A count is the number of traces of that kind |
| `GridSpec.PruneReportAddsUpExactlyWhen` | ffi/format.c:1111-1137 | before = removed + after if and only if the store held at most 32 kinds or nothing was removed |
| `GridSpec.PruneReportCanDisagree` | ffi/format.c:1111-1137 | A store of 33 kinds, as only a remote one can be, whose report does not add up |
| `GridSpec.LocalKindsAreFew` | asm/grid_local.asm:79-105 | Whatever the local recorders, prunes and registrations do, a local store never holds more than nine kinds |
| `GridSpec.LocalPruneReportAddsUp` | ffi/format.c:1111-1137 | So on a local store before = removed + after, always |
| `GridSpec.KindsOfMeaningful` | asm/grid_local.asm:694-749 | Prune removes exactly the ambient kinds and keeps the order in which the others appeared |
| `GridSpec.CountMeaningful` | asm/grid_local.asm:694-749 | Prune removes exactly the ambient traces and changes no other kind's count |
| `GridSpec.FirstSurvivors` | ffi/format.c:1111-1137 | Kinds reported before that survive are reported after |
| `GridSpec.NextKindMovesUp` | ffi/format.c:1111-1137 | When an ambient kind made room, the first kind that had no row gets one |
| `GridSpec.ReportDifference` | ffi/format.c:1111-1137 | Where the two reports of one prune can differ |
| `GridSpec.NothingLeftOver` | ffi/format.c:1111-1137 | Neither difference occurs if and only if every kind had a row or nothing was ambient |
| `GridSpec.RingStep` | asm/grid_local.asm:596-647 | One more cast in slot (id - 1) % 200 keeps the ring holding exactly the newest 200 casts |
| `GridSpec.CastSits` | asm/grid_local.asm:596-647 | Each of the newest 200 casts sits in slot (id - 1) % 200 |
| `GridSpec.RingIsTwoLaps` | asm/grid_local.asm:596-647 | A full ring is the current lap followed by the rest of the last one: every slot a retained cast, no cast twice |
| `GridSpec.RingUntilFull` | asm/grid_local.asm:596-647 | A ring that has not filled holds all casts in order |
| `GridSpec.CastsSinceIsComplete` | asm/grid_local.asm:1002-1087 | Reading the slots in order yields exactly the retained casts newer than `since` |
| `GridSpec.CastsAreReadOnce` | asm/grid_local.asm:1002-1087 | Each of them exactly once |
| `GridSpec.CastsComeInOrder` | asm/grid_local.asm:1002-1087 | In ascending order before the ring has wrapped, and with at most one descent after |
| `GridSpec.NewerInIsExact` | asm/grid_local.asm:1024-1062 | Newer means an id above `since` |
| `GridLocal.LocalHub.constructor` | asm/grid_local.asm:139-178 | A cleared store holds nothing and has seen nothing |
| `GridLocal.LocalHub.Shift` | asm/grid_local.asm:252-312 | The shifting loop makes room in front and loses only the last entry of a full buffer |
| `GridLocal.LocalHub.Record` | asm/grid_local.asm:317-362 | Recording is the fold step; the trace's fields are cut to their sizes and a missing time is the clock's |
| `GridLocal.LocalHub.Seed` | asm/grid_local.asm:180-241 | Boot records six traces of local kinds |
| `GridLocal.LocalHub.RegisterSelf` | asm/grid_local.asm:650-692 | A world already in the traces gets the address on its newest trace rewritten, any other gets a trace of its own; either way the kinds stay local |
| `GridLocal.LocalHub.RecordEcho` | asm/grid_local.asm:365-399 | The echo buffer stays the newest 128 echoes ever recorded |
| `GridLocal.LocalHub.KindAmbient` | asm/grid_local.asm:707-728 | Yes exactly for the kinds in the prune table |
| `GridLocal.LocalHub.Compact` | asm/grid_local.asm:707-733 | Two-index compaction in place leaves exactly the stable subsequence of non-ambient traces |
| `GridLocal.LocalHub.HgPrune` | asm/grid_local.asm:694-749 | Prune on the store is that compaction and reports how many it removed |
| `GridLocal.LocalHub.LedgerStats` | asm/grid_local.asm:921-1000 | One row per kind for the first `cap` kinds, in order of appearance, with its true count |
| `GridLocal.LocalHub.HistogramStep` | asm/grid_local.asm:940-986 | One trace keeps the rows a histogram of the traces seen |
| `GridLocal.LocalHub.GridPrune` | ffi/format.c:1111-1137 | The three reported numbers add up if and only if the store held at most 32 kinds or nothing was removed, and always when only the local recorders wrote to it |
| `GridLocal.LocalHub.Gridcast` | asm/grid_local.asm:596-647 | A cast gets the next id, and the ring goes on holding exactly the newest 200 |
| `GridLocal.LocalHub.WriteSlot` | asm/grid_local.asm:606-637 | One slot is written and the ring grows until all are in use |
| `GridLocal.LocalHub.CastsSince` | asm/grid_local.asm:1002-1087 | The first rows of the complete answer, cut by capacity and by a positive limit; the complete answer with room and no limit |
| `GridLocal.LocalHub.PingRoom` | asm/grid_policy.asm:735-776 | The newest at most six echoes of the room among the newest 128 ever recorded |
| `GridLocal.LocalHub.OfRoomIsExact` | asm/grid_policy.asm:743-772 | The echoes of a room are exactly those recorded for it, in order |
| `Json.UnescapeUndoesEscape` | ffi/format.c:55-113 | An RFC 8259 section 7 parser reads an escaped string back as the string, for every string |
| `Json.EscapeIsOneLine` | ffi/format.c:55-113 | Escaped text holds no raw control byte |
| `Json.JsonEscape` | ffi/format.c:55-113 | Success if and only if the escaped length plus one fits; then the buffer holds the escaped text and a NUL, otherwise an empty string and -1; nothing beyond the capacity is touched |
| `Json.ParseEscapedChar` | ffi/format.c:65-105 | Each escape is read back as its one character |
| `Json.Escape` | ffi/format.c:55-113 | Escaping at most sextuples the length |
| `Json.EscapeCons` | ffi/format.c:55-113 | Escaping works character by character, from either end |
| `Players.PlayersJson` | ffi/format.c:760-813 | Success if and only if the listing fits; then a parser reads the buffer back as exactly the listed sessions in slot order with their standings, on one line |
| `Players.ReaderFinds` | ffi/format.c:760-813 | The parsed listing is one object for each in-room, named, non-excluded session whose name fits, in slot order, with its name and standing; and nothing else |
| `Players.StandingExactlyWhen` | asm/actions.asm:307-352 | Each standing is shown if and only if its reason holds: brand, Front, ally, morality from 50 up, from -50 down, or none of these |
| `Players.EntryDescribes` | ffi/format.c:797-806 | The parsed object names the session under "name" and tells its standing under "standing" |
| `Players.ListedExactlyWhen` | ffi/format.c:772-796 | Who is listed, in terms of the session alone |
| `Players.TextParsesBack` | ffi/format.c:760-813 | For every list of entries the printed array parses back to it with nothing left over |
| `Players.ItemsOneLine` | ffi/format.c:760-813 | The listing never breaks its event line |
| `Players.ValidNamesFit` | ffi/format.c:783-796 | Plain names of at most 32 bytes and all standings fit the 80-byte scratch buffers |
| `Players.ValidNameIsPlain` | asm/session.asm:169-204 | A name that passes the login's check is such a name |
| `Players.NobodyIsDropped` | ffi/format.c:772-796 | When every name has passed the check, the listing is exactly the in-room, named, non-excluded sessions in slot order |
| `Players.StandingIsPlain` | asm/actions.asm:307-352 | Standings need no escaping and are short |
| `Players.FillItems` | ffi/format.c:760-806 | The walk over all slots fills the buffer with the listed entries, or leaves an empty array when one does not fit |
| `Players.PrintSession` | ffi/format.c:772-806 | One slot adds its entry exactly if it is listed |
| `Players.PrintSeat` | ffi/format.c:772-806 | The same on the buffer, with the empty array on overflow |
| `Players.AppendItem` | ffi/format.c:797-806 | An item and the comma before it extend the listing at the write offset |
| `Players.EscapeSession` | ffi/format.c:772-796 | A slot passes exactly if it is in the room, named, not the excluded one, and escapable |
| `Players.Snprintf` | ffi/format.c:797-806 | A bounded print appends the whole text exactly if it fits and always reports its full length |
| `SaveCrash.CrashLeavesOldOrNew` | asm/store.asm:553-636 | Stopping a save after any system call, with any short writes and failures, leaves what could have been there before or the complete new record; an error has not touched the target; success has put the record in place |
| `SaveCrash.EveryLifeKeepsWholeRecords` | asm/store.asm:553-636 | After any number of saves and reboots the file is what it first was or one whole record that was being saved |
| `SaveCrash.TraceIsSound` | asm/store.asm:553-636 | What every point of every save has written and left alone |
| `SaveCrash.StepKeepsSound` | asm/store.asm:553-636 | Each system call with each outcome keeps that account |
| `SaveCrash.WriteAll` | asm/store.asm:573-583 | The write loop goes on after short writes and gives up exactly when a write took nothing |
| `SaveCrash.StoreSave` | asm/store.asm:553-636 | Every run of the save is a trace of the modelled system calls; it fails exactly when the open, a write, fsync, close or rename failed, and then the character's file is untouched; otherwise the record is in place, and if the directory sync worked too, nothing else can be found even after a power loss |
| `SaveCrash.Publish` | asm/store.asm:584-615 | From the written file to the name: the same for fsync, close, rename and the directory sync |
| `StoreRecord.LoadUndoesSave` | asm/store.asm:239-551 | Loading a saved record restores every persisted field and the inventory in order, for a compact inventory and numbers up to 2^53 |
| `StoreRecord.LoadUndoesSaveExactlyWhen` | asm/store.asm:239-551 | It restores the character if and only if the inventory was compact and every number comes back from its double, whatever the loading session held |
| `StoreRecord.AbsentKeysKeepOwnValues` | asm/store.asm:239-425 | In every file, whatever else it holds, each text, number or flag key that is absent leaves the session's own value; an absent secret or inventory starts empty |
| `StoreRecord.KeysHoldTexts` | asm/store.asm:483-494 | In the file each text is under its own key |
| `StoreRecord.KeysHoldNumbers` | asm/store.asm:496-509 | So is each number |
| `StoreRecord.KeysHoldFlags` | asm/store.asm:511-521 | So is each flag |
| `StoreRecord.LoadedTextsFit` | asm/store.asm:176-200 | From any file, texts are cut to their fields and only strings are taken |
| `StoreRecord.TakenIsExact` | asm/store.asm:384-419 | From any list the load takes the strings in order, each cut to a slot, passing over none, and stops early only with sixteen |
| `StoreRecord.NonEmptyIsExact` | asm/store.asm:530-549 | The save keeps exactly the non-empty slots, in order |
| `StoreRecord.MiscountKeepsAll` | asm/store.asm:530-535 | A count out of range makes it keep the items of every slot |
| `StoreRecord.PathExactlyWhen` | asm/store.asm:124-170 | A character has a file if and only if the name has 1 to 32 characters and the path fits |
| `StoreRecord.SavedRecordsPassTheGate` | asm/store.asm:450-551 | Every saved record is at least 2 and at most 65536 bytes, so load's size gate accepts it |
| `StoreRecord.SmallNumbersAreExact` | asm/store.asm:445-448 | Numbers up to 2^53 survive the passage through a double; 2^53 + 1 does not |
| `StoreRecord.SavedItemsComeBack` | asm/store.asm:523-551 | The load takes back exactly the items that were saved, in order |
| `StoreRecord.RefilledExactlyWhen` | asm/store.asm:366-419 | They refill the slots as they were if and only if the slots were compact |
| `StoreRecord.FieldsComeBack` | asm/store.asm:303-366 | Loading a saved record gives any session of that name the saved character, numbers as the file keeps them |
| `StoreRecord.TextsComeBack` | asm/store.asm:303-366 | Every text comes back in its own field |
| `StoreRecord.NumbersComeBack` | asm/store.asm:329-343 | Every number comes back in its own field, as its double cut to 64 bits |
| `StoreRecord.FlagsComeBack` | asm/store.asm:345-355 | Every flag comes back in its own field |
| `StoreRecord.SameFileExactlyWhen` | asm/store.asm:124-170 | Two names share a character file if and only if they differ in case at most |
| `Store.CollectItems` | asm/store.asm:523-551 | The save loop collects the non-empty slots among those counted, with the count read as unsigned |
| `Store.LoadItems` | asm/store.asm:367-419 | The load loop clears the slots and takes strings until sixteen are in place |
| `Store.LoadTexts` | asm/store.asm:176-200 | Each text key replaces its field, cut to the field's size, or leaves it; the secret is cleared first |
| `Store.LoadRecord` | asm/store.asm:239-425 | A parsed record is taken over key by key |
| `Store.StoreLoad` | asm/store.asm:239-442 | A file that does not open is 0; a bad name, an unreadable, undersized, oversized or malformed file is -1 and changes nothing; a record is 1 and is taken over |
| `MoralSpec.StrayedExactlyWhen` | asm/social_ledger.asm:701-746 | In every run a player is strayed if and only if they were at the start or their morality has ever stood at the floor, provided they did not start at the floor unmarked, and only then |
| `MoralSpec.StrayedWhenCaught` | asm/social_ledger.asm:701-746 | Over every run from any start, a player is strayed if and only if they were at the start or a look at the arc has found them at the floor |
| `MoralSpec.MarkCanBeMissed` | asm/grid_policy.asm:212-235 | A player who starts at the floor unmarked, as a merged or half-saved character can, and rises by good deeds is never marked |
| `MoralSpec.ReturnedIsEarned` | asm/social_ledger.asm:647-746 | In every run from any start, a title changed by anything but the title command is "the Returned", given to an untitled player who had strayed, is not ash-sworn and not in the Front, at the moment of redemption |
| `MoralSpec.RedeemedWhenOpened` | asm/social_ledger.asm:720-744 | Over every run from any start, a player is redeemed if and only if they were at the start or some event opened the way: a look at the arc of a strayed player at 5 or better outside the Front, or forgiveness of a strayed one who is neither ash-sworn nor in the Front |
| `MoralSpec.StepRedeemsExactlyWhen` | asm/social_ledger.asm:720-744 | The same for one event, and "the Returned" goes exactly to the newly redeemed who are untitled and not ash-sworn |
| `MoralSpec.CommandRedeemsExactlyWhen` | asm/social_ledger.asm:720-744 | The same for one command on any soul |
| `MoralSpec.ArcRedeemsExactlyWhen` | asm/social_ledger.asm:701-746 | The same for one look at the arc, which changes nothing else |
| `MoralSpec.ForgiveExactlyWhen` | asm/social_grid.asm:428-493 | Who is forgiven, what it is worth to both, and whom it redeems, each if and only if |
| `MoralSpec.MarketChoice` | asm/combat.asm:1217-1300 | What joining and standing up at the market come to, once, for the hunted and the others |
| `MoralSpec.PledgeThenDefy` | asm/social_grid.asm:785-950 | A pledge turned against the Front brings back exactly those who started between 0 and 5, or redeems, untitled, the hunted from 15 to 20 |
| `MoralSpec.TheftsStray` | asm/social_ledger.asm:878-915 | `n` thefts cost 8n and mark exactly those they bring to the floor |
| `MoralSpec.RunIsFair` | asm/social_ledger.asm:647-746 | From any start no sequence of commands clears strayed, redeemed or ash-sworn, and if redeemed implied strayed for a player it goes on doing so |
| `MoralSpec.StepIsFair` | asm/social_grid.asm:390-512 | From any state each command changes every player fairly, forgiver and forgiven included, even when they are one, and marks exactly whom its look at the arc finds at the floor |
| `MoralSpec.CommandIsFair` | asm/social_ledger.asm:701-746 | What one command may do to any soul: marks only grow, straying is a look at the arc that finds the floor, redemption follows straying outside the Front |
| `MoralSpec.ForgiveIsFair` | asm/social_grid.asm:449-493 | Forgiving is fair to both players and marks neither |
| `MoralSpec.ForgiveStep` | asm/social_grid.asm:456-493 | Forgiving changes the two players, or the one in both roles, and nobody else |
| `Moral.MoralArc` | asm/social_ledger.asm:701-746 | The arc on a session block is the arc on its soul |
| `Moral.DaisPledge` | asm/social_grid.asm:785-860 | A pledge at the dais by the unaligned; hunted races become ash-sworn |
| `Moral.CmdJoin` | asm/combat.asm:1201-1275 | Joining at the market once, or pledging at the dais |
| `Moral.CmdDefend` | asm/combat.asm:1284-1317 | Standing with the market's folk, once |
| `Moral.CmdDefy` | asm/social_grid.asm:880-950 | Leaving the Front, redeemed at once when the way is open |
| `Moral.CmdSteal` | asm/social_ledger.asm:878-915 | Stealing at the market costs morality, pays gold, and can end in straying |
| `Moral.CmdForgive` | asm/social_grid.asm:390-512 | Who is found, each refusal exactly when its reason holds, and the step of forgiveness with its ledger entry otherwise; nothing changes when nobody is found, and third players never change |
| `Moral.ForgiveFound` | asm/social_grid.asm:428-493 | The decision once the target is known |
| `Moral.ForgiveMarked` | asm/social_grid.asm:449-493 | The effects on both, also when they are one session |
| `Moral.CmdWitness` | asm/social_grid.asm:683-691 | A remembered name is rewarded exactly when it is new to the ledger |
| `Ledgers.CountsAreTrueExactlyWhen` | asm/social_ledger.asm:356-437 | What the table says of every name and kind is the number of deeds done if and only if at most 64 names have appeared |
| `Ledgers.TimesIsACount` | asm/social_ledger.asm:395-399 | A count is the number of deeds of that name and kind |
| `Ledgers.RewardedOnceExactlyWhen` | asm/social_ledger.asm:508-644 | A stored pair has been rewarded exactly once, a pair that met a full table at every attempt; while there is room, stored means attempted |
| `Ledgers.StoredDistinct` | asm/social_ledger.asm:508-644 | The table holds each pair once and never overflows |
| `Ledgers.SamePairExactlyWhen` | asm/social_ledger.asm:516-535 | Two pairs are one entry if and only if both names agree, each in its place, in any case |
| `Ledgers.StoredByAttempt` | asm/social_ledger.asm:545-572 | The table holds the first pairs attempted, in order |
| `Ledgers.AttemptsIsACount` | asm/social_ledger.asm:508-644 | Attempts are counted one by one |
| `Ledgers.NamesDistinct` | asm/social_ledger.asm:367-394 | No name, in any case, has two rows |
| `Ledgers.UnnamedNeverCounted` | asm/social_ledger.asm:407-433 | A name that never appeared has no deeds |
| `Ledgers.DeedTable.constructor` | asm/social_ledger.asm:13-14 | The table starts empty |
| `Ledgers.DeedTable.FindRow` | asm/social_ledger.asm:367-378 | The scan finds a name in any case exactly if it has a row |
| `Ledgers.DeedTable.NewRow` | asm/social_ledger.asm:379-394 | A new name gets a row of zeros |
| `Ledgers.DeedTable.Bump` | asm/social_ledger.asm:395-399 | One more deed changes one counter |
| `Ledgers.DeedTable.AddDeed` | asm/social_ledger.asm:356-403 | The table goes on holding the true counts of the first 64 names, through full tables and unnamed players |
| `Ledgers.DeedTable.DeedCount` | asm/social_ledger.asm:407-437 | The deeds added under that name in any case while at most 64 names have appeared, and always for the first 64 |
| `Ledgers.PairTable.constructor` | asm/social_ledger.asm:6-9 | The table starts empty |
| `Ledgers.PairTable.Has` | asm/social_ledger.asm:508-540 | True exactly for stored ordered pairs, in any case |
| `Ledgers.PairTable.Mark` | asm/social_ledger.asm:545-572 | A new pair is stored while there is room; a known one changes nothing |
| `Ledgers.PairTable.RewardOnce` | asm/social_grid.asm:683-691 | Looking before marking rewards an attempt exactly when the reward count grows |
| `Finder.FoundExactlyWhenAlone` | asm/social.asm:223-295 | A player is found if and only if nobody else in the room can be meant |
| `Finder.FoundExactlyWhen` | asm/social.asm:223-295 | A player is found if and only if they alone are in the room, named, not the one left out, and have a name with that prefix in any case |
| `Finder.FindsOneselfExactlyWhen` | asm/social_grid.asm:416-427 | With nobody left out, a prefix of one's own name finds oneself if and only if no other name there starts with it; with oneself left out, never |
| `Finder.FindPlayerPrefix` | asm/social.asm:223-295 | The loop over the table finds that player |
| `Gold.GoldIsConserved` | asm/social_ledger.asm:1266-1279 | Over every sequence of caches and gathers by any players in any rooms, carried plus cached gold is constant and nothing is negative |
| `Gold.StepConserves` | asm/social_ledger.asm:1354-1366 | One cache or gather moves gold and makes none |
| `Gold.LeftAndFound` | asm/social_ledger.asm:1250-1392 | Gold left by one player in a room is found by the next, with all that lay there; nobody else and no other room notices; it can be left if and only if the amount is positive and covered and the room on the map |
| `Gold.GatherTwice` | asm/social_ledger.asm:1354-1392 | A gather takes all there is, so a second finds nothing |
| `Gold.CmdCache` | asm/social_ledger.asm:1266-1279 | A cache moves an affordable positive amount into the room, earns 2 morality, and otherwise changes nothing |
| `Gold.CmdGather` | asm/social_ledger.asm:1354-1366 | A gather takes all that is cached in the room |
| `Bags.HandOverConservesExactlyWhen` | asm/social.asm:1067-1096 | A hand-over keeps the two inventories' items together if and only if the taker has a free slot; otherwise exactly the item is gone |
| `Bags.Give` | asm/social.asm:1067-1096 | Giving keeps both inventories compact and moves the found item, conserving items whenever the taker has a free slot |
| `Bags.FindIn` | asm/social.asm:337-381 | The first item that starts with the word, or none |
| `Bags.Bag.constructor` | asm/session.asm:249-252 | A new session carries one shiv and nothing else |
| `Bags.Bag.Add` | asm/social.asm:297-330 | An item is appended exactly when it is named and a slot is free |
| `Bags.Bag.Find` | asm/social.asm:337-381 | The loop finds that item |
| `Bags.Bag.Remove` | asm/social.asm:385-423 | Removing closes the gap in order and keeps the inventory compact |
| `Bags.WithoutKeepsOrder` | asm/social.asm:385-423 | The items that stay keep their order |
| `CStrings.CopyCap` | asm/grid_local.asm:114-136 | A copy into a field is the longest prefix that leaves room for the terminator |
| `CStrings.EqNoCaseExactlyWhen` | asm/social_ledger.asm:286-300 | Texts agree regardless of case if and only if they do letter by letter |

## Left out

- The federation hub over HTTP, libcurl, cJSON and libwebsockets themselves: foreign code; the cJSON tree and the answers of the hub are values.
- Password hashing, salts and token comparison: their answers are parameters of the login machine.
- The merge of hub data into a session at login and the hub-side policies of `asm/grid_policy.asm`: the arc's runs start where play starts, from any state such a merge can leave.
- The checks on hit points in a loaded file: load takes any number, so combat runs start from sessions whose hit points are in range.
- Duplicate logins of one character: `CHANGELOG.md` line 9 says they are rejected, but `asm/session.asm` has no such check, so nothing is claimed.
- Sessions that arrive when all 32 registry slots are taken: they play but are never pulsed. What their commands do to the rest of the world is part of every run; their own hit points and fights are not followed over runs.
- Prose, banners, room text, action menus, the exit table, travel targets and `ping all`: fixed text and easy claims.
- The rolls of the fallen and the rescued, the tide, and the list of worlds: they repeat the shifting buffer or are single numbers.
- The calls to deed counters, records and saves inside commands: each is modelled where it is defined, not again at its callers.
- Equality tests whose branch is taken without a test of the comparison's result (`asm/social_grid.asm` lines 794 and 887, `asm/social.asm` line 822): the intended equality is modelled.
- Partial socket writes: the shim would send the whole buffer again, so writes are modelled as all or nothing; what is pending when a connection closes is dropped.
- Word splitting of `give`, `forgive`, `witness` and `cache` arguments: the commands are modelled from the parsed words on.
- The fixed period of the world tick: `rest` resets its clock, so only the gate itself is stated.
- GridLocal.LocalHub.Gridcast: does not model the wrap of cast ids after 2^31 casts.
- GridLocal.LocalHub.LedgerStats: row counts are unbounded integers; 200 traces cannot overflow them.
- Ledgers.DeedTable.DeedCount: does not model the 32-bit read of a counter beyond 2^31.
- Ledgers.PairTable.constructor: the capacity is a parameter, because the code gives the forgiven table 256 rows and the kept table 128.
- StoreRecord.SavedRecordsPassTheGate: how numbers are printed is a parameter; only that they take at most 25 characters is used.
- StoreRecord.LoadUndoesSave: that parsing the printed file gives back the tree is the cJSON library's promise and is not proved here.
- Json.UnescapeUndoesEscape: the reference parser refuses surrogate escapes, which the printer never writes.
- Json.ParseValue: the reference parser knows strings, arrays and objects; numbers and literals, which the listing never holds, are not read, and bytes above 0x7F are taken as they are.
- GridSpec.PruneReportCanDisagree: that a remote hub reports kinds in the order of their first appearance is an assumption about foreign code; the rows and the removed number are taken from it as they come (`ffi/grid_hub.c` lines 848-903).
- StoreRecord.AbsentKeysKeepOwnValues: an object under the inventory key of a hand-edited file counts as no items here, while the JSON library would walk its members like a list.
- Gold.GoldIsConserved: does not model the wrap of purses beyond 2^63.
- StoreRecord.NumbersComeBack: numbers with a fraction in a hand-edited file are not modelled.
- Players.EscapeScratch: the scratch buffers are fresh ones of 80 bytes, because their old contents never matter.
- SaveCrash.EveryLifeKeepsWholeRecords: rename is atomic and an fsync that succeeds is durable; these are the file system's promises.
