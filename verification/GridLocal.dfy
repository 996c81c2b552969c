/** The in-memory store of `asm/grid_local.asm` on its fixed arrays: shifting buffers, the cast ring, in-place prune,
    the kind histogram, and the room ping that reads the echoes back (`asm/grid_policy.asm`). */
module GridLocal {
  import opened CStrings
  import opened Picks
  import opened GridSpec

  class LocalHub {
    const worldName: string
    const traces: array<Trace>
    const echoes: array<Echo>
    const casts: array<Cast>
    var traceN: nat
    var echoN: nat
    var castN: nat
    var nextCast: nat
    /** Everything ever done to the traces, every echo and every cast, oldest first. */
    ghost var ops: seq<Op>
    ghost var allEchoes: seq<Echo>
    ghost var allCasts: seq<Cast>

    ghost predicate Valid()
      reads this, traces, echoes, casts
    {
      && traces.Length == MAX_TRACES && echoes.Length == MAX_ECHO && casts.Length == MAX_CASTS
      && traceN <= MAX_TRACES && echoN <= MAX_ECHO && castN <= MAX_CASTS
      && traces[..traceN] == Fold(ops, AMBIENT)
      && echoes[..echoN] == Newest(allEchoes, MAX_ECHO)
      && nextCast == |allCasts| && Numbered(allCasts) && IsRing(casts[..castN], allCasts)
    }

    constructor (world: string)
      ensures Valid() && worldName == CopyCap(world, 64) && ops == [] && allEchoes == [] && allCasts == []
      ensures fresh(traces) && fresh(echoes) && fresh(casts)
    {
      worldName := CopyCap(world, 64);
      traces := new Trace[MAX_TRACES](_ => Trace("", "", "", "", 0));
      echoes := new Echo[MAX_ECHO](_ => Echo("", "", "", 0));
      casts := new Cast[MAX_CASTS](_ => Cast(0, "", "", ""));
      traceN, echoN, castN, nextCast := 0, 0, 0, 0;
      ops, allEchoes, allCasts := [], [], [];
    }

    /** `trace_shift` and `echo_shift`: move the entries one place down, losing the last of a full buffer. */
    static method Shift<T>(a: array<T>, n: nat) returns (m: nat)
      requires n <= a.Length && 0 < a.Length
      modifies a
      ensures m == if n < a.Length then n + 1 else n
      ensures forall x :: [x] + a[1..m] == Kept(x, old(a[..n]), a.Length)
    {
      var k := if n < a.Length then n else a.Length - 1;
      ghost var top := k;
      while k > 0
        invariant 0 <= k <= top < a.Length
        invariant forall i :: 0 <= i <= k ==> a[i] == old(a[i])
        invariant forall i :: k < i <= top ==> a[i] == old(a[i - 1])
      {
        a[k] := a[k - 1];
        k := k - 1;
      }
      m := if n < a.Length then n + 1 else n;
    }

    /** `hg_grid_local_record`; `now` is what the clock reads. */
    method Record(world: string, node: string, kind: string, text: string, at: int, now: int)
      requires Valid()
      modifies this`traceN, this`ops, traces
      ensures Valid()
      ensures ops == old(ops) + [Op.Record(Trace(CopyCap(world, 48), CopyCap(node, 64), CopyCap(kind, 24),
                                                 CopyCap(text, 200), if at != 0 then at else now))]
      ensures traces[..traceN] == Applied(old(traces[..traceN]), ops[|ops| - 1], AMBIENT)
    {
      var when := at;
      if when == 0 {
        when := now;
      }
      ghost var before := traces[..traceN];
      traceN := Shift(traces, traceN);
      var t := Trace(CopyCap(world, 48), CopyCap(node, 64), CopyCap(kind, 24), CopyCap(text, 200), when);
      traces[0] := t;
      assert traces[..traceN] == [t] + traces[1..traceN];
      FoldSnoc(ops, Op.Record(t), AMBIENT);
      ops := ops + [Op.Record(t)];
    }

    /** A record by one of the local recorders. */
    method RecordLocal(world: string, node: string, kind: string, text: string, now: int)
      requires Valid() && Local(ops) && kind in LOCAL_KINDS
      modifies this`traceN, this`ops, traces
      ensures Valid() && Local(ops) && |ops| == |old(ops)| + 1 && old(ops) <= ops
    {
      LocalKindFits(kind);
      Record(world, node, kind, text, 0, now);
      LocalSnoc(old(ops), ops[|old(ops)|]);
    }

    /** The seeds of `hg_grid_local_boot`; `clock` is what the clock reads at each. */
    method Seed(clock: seq<int>)
      requires Valid() && |clock| == 6 && ops == []
      modifies this`traceN, this`ops, traces
      ensures Valid() && Local(ops) && |ops| == 6
    {
      RecordLocal("Dustfall", "the long market", "slain",
                  "a trader put down a chrome-jackal with a length of pipe.", clock[0]);
      RecordLocal("the Ninth Server", "cell block C", "oath",
                  "someone swore off the dust for the ninth time.", clock[1]);
      RecordLocal("Saltreach", "the drowned pier", "death",
                  "a runner called Mox bled out, cursing the tide.", clock[2]);
      RecordLocal("Basalt Relay", "nexus", "ghost", "a faint cursor blinks once and is gone.", clock[3]);
      RecordLocal("Basalt Relay", "market", "passage", "someone passed through without leaving a name.", clock[4]);
      RecordLocal("Basalt Relay", "roof", "recall",
                  "a half-remembered transmission dissolves into static.", clock[5]);
    }

    /** `hg_grid_local_register_self`: rewrite the address on the newest trace of this world, or record one. */
    method RegisterSelf(address: string, now: int)
      requires Valid()
      modifies this`traceN, this`ops, traces
      ensures Valid()
      ensures ops == old(ops) + [if FirstOf(old(traces[..traceN]), worldName) < old(traceN)
                                 then Readdress(worldName, CopyCap(address, 64))
                                 else Op.Record(Trace(CopyCap(worldName, 48), CopyCap(address, 64), "register",
                                                      "a new node joined the network.", now))]
      ensures Local(old(ops)) ==> Local(ops)
    {
      ghost var ts := traces[..traceN];
      var i := 0;
      while i < traceN && traces[i].world != worldName
        invariant 0 <= i <= traceN && FirstOf(ts, worldName) == FirstOf(ts, worldName, i)
      {
        i := i + 1;
      }
      if i < traceN {
        var old' := traces[i];
        traces[i] := old'.(node := CopyCap(address, 64));
        ghost var op := Readdress(worldName, CopyCap(address, 64));
        assert traces[..traceN] == ts[i := old'.(node := CopyCap(address, 64))];
        FoldSnoc(ops, op, AMBIENT);
        ops := ops + [op];
      } else {
        Record(worldName, address, "register", "a new node joined the network.", now, now);
      }
    }

    /** `hg_grid_record_local_echo`. */
    method RecordEcho(node: string, kind: string, text: string, now: int)
      requires Valid()
      modifies this`echoN, this`allEchoes, echoes
      ensures Valid()
      ensures allEchoes == old(allEchoes) + [Echo(CopyCap(node, 64), CopyCap(kind, 24), CopyCap(text, 200), now)]
    {
      var e := Echo(CopyCap(node, 64), CopyCap(kind, 24), CopyCap(text, 200), now);
      ghost var before := echoes[..echoN];
      echoN := Shift(echoes, echoN);
      echoes[0] := e;
      assert echoes[..echoN] == [e] + echoes[1..echoN];
      KeptIsNewest(e, allEchoes, MAX_ECHO);
      allEchoes := allEchoes + [e];
    }

    /** `hg_prune_kind_ambient`: search the table of prune kinds. */
    static method KindAmbient(kinds: seq<string>, kind: string) returns (r: bool)
      ensures r <==> kind in KindSet(kinds)
    {
      var i := 0;
      while i < |kinds| && kinds[i] != kind
        invariant 0 <= i <= |kinds| && forall j :: 0 <= j < i ==> kinds[j] != kind
      {
        i := i + 1;
      }
      r := i < |kinds|;
    }

    /** Two-index compaction: keep what is not ambient, in order. */
    static method Compact(a: array<Trace>, n: nat, kinds: seq<string>, ghost amb: set<string>) returns (kept: nat)
      requires n <= a.Length && amb == KindSet(kinds)
      modifies a
      ensures kept <= n && a[..kept] == Meaningful(old(a[..n]), amb)
    {
      ghost var before := a[..n];
      kept := 0;
      for i := 0 to n
        invariant kept <= i && a[..kept] == Meaningful(before[..i], amb)
        invariant forall k :: i <= k < n ==> a[k] == before[k]
      {
        kept := KeepOrSkip(a, kept, i, kinds, before, amb);
      }
      assert before[..n] == before;
    }

    /** One turn of the compaction. */
    static method KeepOrSkip(a: array<Trace>, kept: nat, i: nat, kinds: seq<string>, ghost before: seq<Trace>,
                             ghost amb: set<string>) returns (m: nat)
      requires kept <= i < a.Length && i < |before| && a[i] == before[i] && amb == KindSet(kinds)
      requires a[..kept] == Meaningful(before[..i], amb)
      modifies a
      ensures m <= i + 1 && a[..m] == Meaningful(before[..i + 1], amb)
      ensures forall k :: i < k < a.Length ==> a[k] == old(a[k])
    {
      PrefixSnoc(before, i);
      MeaningfulSnoc(before[..i], before[i], amb);
      var ambient := KindAmbient(kinds, a[i].kind);
      if ambient {
        m := kept;
      } else {
        MoveDown(a, kept, i);
        m := kept + 1;
      }
    }

    /** The entry at `i` follows the entries kept so far. */
    static method MoveDown(a: array<Trace>, kept: nat, i: nat)
      requires kept <= i < a.Length
      modifies a
      ensures a[..kept + 1] == old(a[..kept]) + [old(a[i])]
      ensures forall k :: i < k < a.Length ==> a[k] == old(a[k])
    {
      if kept != i {
        a[kept] := a[i];
      }
    }

    /** `hg_grid_local_prune`. */
    method HgPrune() returns (removed: int)
      requires Valid()
      modifies this`traceN, this`ops, traces
      ensures Valid() && ops == old(ops) + [Prune]
      ensures traces[..traceN] == Meaningful(old(traces[..traceN]), AMBIENT)
      ensures removed == old(traceN) - traceN
    {
      var kept := Compact(traces, traceN, PRUNE_KINDS, AMBIENT);
      removed := traceN - kept;
      traceN := kept;
      FoldSnoc(ops, Prune, AMBIENT);
      ops := ops + [Prune];
    }

    /** `hg_grid_local_ledger_stats`: count the traces of each kind in at most `cap` rows. */
    method LedgerStats(cap: nat) returns (rows: seq<Row>)
      requires Valid()
      ensures IsHistogram(rows, traces[..traceN], cap)
    {
      ghost var ts := traces[..traceN];
      rows := [];
      var i := 0;
      while i < traceN
        invariant 0 <= i <= traceN && IsHistogram(rows, ts[..i], cap)
      {
        ghost var was := rows;
        var kind := traces[i].kind;
        var k := RowOf(rows, kind);
        if k < |rows| {
          rows := rows[k := Row(kind, rows[k].count + 1)];
        } else if |rows| < cap {
          rows := rows + [Row(kind, 1)];
        }
        HistogramStep(was, ts[..i], ts[i], cap, k, rows);
        PrefixSnoc(ts, i);
        i := i + 1;
      }
      assert ts[..traceN] == ts;
    }

    static method RowOf(rows: seq<Row>, kind: string) returns (k: nat)
      ensures k <= |rows| && (k < |rows| ==> rows[k].kind == kind)
      ensures forall j :: 0 <= j < k ==> rows[j].kind != kind
    {
      k := 0;
      while k < |rows| && rows[k].kind != kind
        invariant 0 <= k <= |rows|
        invariant forall j :: 0 <= j < k ==> rows[j].kind != kind
      {
        k := k + 1;
      }
    }

    /** The bookkeeping of one trace: the search stopped at the first row of its kind, or found none. */
    static lemma HistogramStep(was: seq<Row>, ts: seq<Trace>, t: Trace, cap: nat, k: nat, rows: seq<Row>)
      requires IsHistogram(was, ts, cap) && k <= |was|
      requires forall j :: 0 <= j < k ==> was[j].kind != t.kind
      requires k < |was| ==> was[k].kind == t.kind && rows == was[k := Row(t.kind, was[k].count + 1)]
      requires k == |was| ==> rows == if |was| < cap then was + [Row(t.kind, 1)] else was
      ensures IsHistogram(rows, ts + [t], cap)
    {
      if k < |was| { KnownKind(was, ts, t, cap, k, rows); } else { NewKind(was, ts, t, cap, rows); }
    }

    static lemma KnownKind(was: seq<Row>, ts: seq<Trace>, t: Trace, cap: nat, k: nat, rows: seq<Row>)
      requires IsHistogram(was, ts, cap) && k < |was|
      requires was[k].kind == t.kind && rows == was[k := Row(t.kind, was[k].count + 1)]
      ensures IsHistogram(rows, ts + [t], cap)
    {
      var ks := Taken(Kinds(ts), cap);
      KindsSnoc(ts, t);
      KindsAreDistinct(ts);
      CountsSnoc(ts, t, ks);
      assert ks[k] == Kinds(ts)[k] == t.kind;
    }

    static lemma NewKind(was: seq<Row>, ts: seq<Trace>, t: Trace, cap: nat, rows: seq<Row>)
      requires IsHistogram(was, ts, cap)
      requires forall j :: 0 <= j < |was| ==> was[j].kind != t.kind
      requires rows == if |was| < cap then was + [Row(t.kind, 1)] else was
      ensures IsHistogram(rows, ts + [t], cap)
    {
      var ks := Taken(Kinds(ts), cap);
      KindsSnoc(ts, t);
      CountsSnoc(ts, t, ks);
      if |was| < cap {
        assert ks == Kinds(ts);
        assert forall j :: 0 <= j < |ks| ==> ks[j] == was[j].kind;
        FirstOfItsKind(ts, t);
      } else {
        assert Taken(Kinds(ts + [t]), cap) == ks;
      }
    }

    static lemma FirstOfItsKind(ts: seq<Trace>, t: Trace)
      requires t.kind !in Kinds(ts)
      ensures CountIn(ts + [t], {t.kind}) == 1
    {
      CountSnoc(ts, t, {t.kind});
      CountInPositive(ts, {t.kind});
      KindsOccur(ts, t.kind);
    }

    static lemma CountsSnoc(ts: seq<Trace>, t: Trace, ks: seq<string>)
      ensures forall i :: 0 <= i < |ks| ==>
        CountIn(ts + [t], {ks[i]}) == CountIn(ts, {ks[i]}) + if ks[i] == t.kind then 1 else 0
    {
      forall i | 0 <= i < |ks|
        ensures CountIn(ts + [t], {ks[i]}) == CountIn(ts, {ks[i]}) + if ks[i] == t.kind then 1 else 0
      {
        CountSnoc(ts, t, {ks[i]});
      }
    }

    /** `hg_emit_gridprune_cmd_now`: the three numbers of a prune. They add up exactly when the store held no more
        than 32 kinds or nothing was removed, and so always while only the local recorders have written to it. */
    method GridPrune() returns (before: int, removed: int, after: int)
      requires Valid()
      modifies this`traceN, this`ops, traces
      ensures Valid() && ops == old(ops) + [Prune]
      ensures before == removed + after <==> |Kinds(old(traces[..traceN]))| <= LEDGER_ROWS || removed == 0
      ensures Local(old(ops)) ==> before == removed + after && Local(ops)
    {
      if Local(ops) { LocalKindsAreFew(ops, AMBIENT); }
      ghost var ts := traces[..traceN];
      var rows := LedgerStats(LEDGER_ROWS);
      before := SumRows(rows);
      removed := HgPrune();
      var left := LedgerStats(LEDGER_ROWS);
      after := SumRows(left);
      PruneReportAddsUpExactlyWhen(ts, rows, left, LEDGER_ROWS, AMBIENT);
    }

    static method SumRows(rows: seq<Row>) returns (total: int)
      ensures total == Total(rows)
    {
      total := 0;
      for i := 0 to |rows|
        invariant total == Total(rows[..i])
      {
        assert rows[..i + 1][..i] == rows[..i];
        total := total + rows[i].count;
      }
      assert rows[..|rows|] == rows;
    }

    /** `hg_grid_local_gridcast`: ids count from 1 and the slot is `(id - 1) % 200`. */
    method Gridcast(sender: string, text: string)
      requires Valid()
      modifies this`castN, this`nextCast, this`allCasts, casts
      ensures Valid()
      ensures allCasts == old(allCasts) + [Cast(old(nextCast) + 1, CopyCap(worldName, 48), CopyCap(sender, 33),
                                                CopyCap(text, 240))]
    {
      nextCast := nextCast + 1;
      var slot := Slot(nextCast - 1);
      var c := Cast(nextCast, CopyCap(worldName, 48), CopyCap(sender, 33), CopyCap(text, 240));
      RingStep(casts[..castN], allCasts, c);
      NumberedSnoc(allCasts, c);
      allCasts := allCasts + [c];
      castN := WriteSlot(casts, castN, slot, c);
    }

    /** One slot written; the ring grows until every slot is in use. */
    static method WriteSlot(a: array<Cast>, n: nat, slot: nat, c: Cast) returns (m: nat)
      requires n <= a.Length && slot < a.Length && (n < a.Length ==> slot == n)
      modifies a
      ensures m <= a.Length
      ensures a[..m] == if n < a.Length then old(a[..n]) + [c] else old(a[..n])[slot := c]
    {
      a[slot] := c;
      m := if n < a.Length then n + 1 else n;
    }

    /** `hg_grid_local_casts_since`: walk the slots in order into at most `cap` rows, then trim to `limit` when it is
        positive. */
    method CastsSince(since: int, limit: int, cap: nat) returns (rows: seq<Cast>)
      requires Valid()
      ensures var all := Taken(AsRead(allCasts, since), cap);
              rows == if limit > 0 then Taken(all, limit) else all
      ensures limit <= 0 && cap >= 200 ==> rows == AsRead(allCasts, since)
    {
      rows := [];
      ghost var ring := casts[..castN];
      var i := 0;
      while i < castN
        invariant 0 <= i <= castN && rows == Taken(Since(ring[..i], since), cap)
      {
        assert ring[..i + 1][..i] == ring[..i];
        if casts[i].id > since {
          if |rows| >= cap {
            break;
          }
          rows := rows + [casts[i]];
        }
        i := i + 1;
      }
      RestDoesNotMatter(ring, i, since, cap);
      SinceIsShort(ring, since);
      CastsSinceIsComplete(ring, allCasts, since);
      if limit > 0 && |rows| > limit {
        rows := rows[..limit];
      }
    }

    /** The walk ends at the last slot in use, or with the rows full at a slot that would need one more. */
    static lemma RestDoesNotMatter(ring: seq<Cast>, i: nat, since: int, cap: nat)
      requires i <= |ring| && (i == |ring| || |Since(ring[..i], since)| >= cap)
      ensures Taken(Since(ring, since), cap) == Taken(Since(ring[..i], since), cap)
    {
      SinceSplit(ring[..i], ring[i..], since);
      assert ring[..i] + ring[i..] == ring;
    }

    static lemma {:induction false} SinceIsShort(cs: seq<Cast>, since: int)
      ensures |Since(cs, since)| <= |cs|
    {
      if cs != [] { SinceIsShort(cs[..|cs| - 1], since); }
    }

    /** The echoes of one room, in the order given. */
    static function OfRoom(es: seq<Echo>, room: string): seq<Echo> {
      if es == [] then []
      else if es[|es| - 1].node == room then OfRoom(es[..|es| - 1], room) + [es[|es| - 1]]
      else OfRoom(es[..|es| - 1], room)
    }

    /** Exactly the echoes of the room. */
    static lemma {:induction false} OfRoomIsExact(es: seq<Echo>, room: string) returns (at: seq<nat>)
      ensures IsPick(es, at, OfRoom(es, room))
      ensures forall i :: 0 <= i < |es| ==> (i in at <==> es[i].node == room)
    {
      if es == [] {
        at := [];
      } else {
        var init := es[..|es| - 1];
        at := OfRoomIsExact(init, room);
        PickLast(es, at, OfRoom(init, room));
        if es[|es| - 1].node == room { at := at + [|es| - 1]; }
      }
    }

    static lemma {:induction false} OfRoomSplit(a: seq<Echo>, b: seq<Echo>, room: string)
      ensures OfRoom(a + b, room) == OfRoom(a, room) + OfRoom(b, room)
    {
      if b == [] {
        assert a + b == a;
      } else {
        assert (a + b)[..|a + b| - 1] == a + b[..|b| - 1];
        OfRoomSplit(a, b[..|b| - 1], room);
      }
    }

    /** The collection loop of `hg_cmd_ping`: of the newest 128 echoes ever recorded, the newest six of the room. */
    method PingRoom(room: string) returns (found: seq<Echo>)
      requires Valid()
      ensures found == Taken(OfRoom(Newest(allEchoes, 128), room), 6)
    {
      found := [];
      ghost var es := echoes[..echoN];
      var i := 0;
      while i < echoN && |found| < PING_ECHO_MAX
        invariant 0 <= i <= echoN && |found| <= PING_ECHO_MAX && found == OfRoom(es[..i], room)
      {
        assert es[..i + 1][..i] == es[..i];
        if echoes[i].node == room {
          found := found + [echoes[i]];
        }
        i := i + 1;
      }
      OfRoomSplit(es[..i], es[i..], room);
      assert es[..i] + es[i..] == es;
      assert i == echoN ==> es[i..] == [];
    }
  }
}
