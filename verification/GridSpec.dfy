/** The LocalHub store of `asm/grid_local.asm` as functions on sequences: newest-first buffers, prune, the histogram
    of kinds, and the cast ring. */
module GridSpec {
  import opened CStrings
  import opened Picks

  const MAX_TRACES := 200
  const MAX_ECHO := 128
  const MAX_CASTS := 200
  const LEDGER_ROWS := 32
  const PING_ECHO_MAX := 6

  datatype Trace = Trace(world: string, node: string, kind: string, text: string, at: int)
  datatype Echo = Echo(node: string, kind: string, text: string, at: int)
  datatype Cast = Cast(id: int, world: string, sender: string, text: string)
  datatype Row = Row(kind: string, count: int)

  // ---- Sequences ---------------------------------------------------------------------------------------------

  lemma PrefixSnoc<T>(s: seq<T>, i: nat)
    requires i < |s|
    ensures s[..i + 1] == s[..i] + [s[i]] && s[..i + 1][..i] == s[..i]
  {
  }

  lemma SnocPrefix<T>(s: seq<T>, x: T)
    ensures (s + [x])[..|s|] == s
  {
  }

  // ---- Newest-first buffers ----------------------------------------------------------------------------------

  /** Put `x` in front and let the last entry fall off a full buffer. */
  function Kept<T>(x: T, s: seq<T>, max: nat): (r: seq<T>)
    requires 0 < max
    ensures |s| <= max ==> |r| <= max
  {
    [x] + if |s| < max then s else s[..max - 1]
  }

  /** The newest `max` of everything recorded, newest first. */
  function Newest<T>(all: seq<T>, max: nat): (r: seq<T>)
    ensures |r| == if |all| < max then |all| else max
    ensures forall i :: 0 <= i < |r| ==> r[i] == all[|all| - 1 - i]
  {
    seq(if |all| < max then |all| else max, i requires 0 <= i < |all| => all[|all| - 1 - i])
  }

  lemma KeptIsNewest<T>(x: T, all: seq<T>, max: nat)
    requires 0 < max
    ensures Kept(x, Newest(all, max), max) == Newest(all + [x], max)
  {
  }

  // ---- Prune -------------------------------------------------------------------------------------------------

  /** The kinds `hg_prune_kind_ambient` answers yes to. The laws below hold for any set of ambient kinds. */
  const PRUNE_KINDS: seq<string> := ["ghost", "passage", "recall"]
  const AMBIENT: set<string> := set k | k in PRUNE_KINDS

  function Meaningful(ts: seq<Trace>, amb: set<string>): (r: seq<Trace>)
    ensures |r| <= |ts|
  {
    if ts == [] then []
    else if ts[|ts| - 1].kind in amb then Meaningful(ts[..|ts| - 1], amb)
    else Meaningful(ts[..|ts| - 1], amb) + [ts[|ts| - 1]]
  }

  lemma MeaningfulSnoc(ts: seq<Trace>, t: Trace, amb: set<string>)
    ensures Meaningful(ts + [t], amb) == if t.kind in amb then Meaningful(ts, amb) else Meaningful(ts, amb) + [t]
  {
    assert (ts + [t])[..|ts|] == ts;
  }

  /** Cutting a kind down to its 23-byte field never changes whether prune removes it. */
  lemma TruncationKeepsAmbient(kind: string)
    ensures CopyCap(kind, 24) in AMBIENT <==> kind in {"ghost", "passage", "recall"}
  {
    if |kind| >= 24 { assert |CopyCap(kind, 24)| == 23; }
  }

  /** Prune keeps exactly the traces that are not ambient, in their order. */
  lemma {:induction false} MeaningfulIsExact(ts: seq<Trace>, amb: set<string>) returns (at: seq<nat>)
    ensures IsPick(ts, at, Meaningful(ts, amb))
    ensures forall i :: 0 <= i < |ts| ==> (i in at <==> ts[i].kind !in amb)
  {
    if ts == [] {
      at := [];
    } else {
      var init := ts[..|ts| - 1];
      at := MeaningfulIsExact(init, amb);
      PickLast(ts, at, Meaningful(init, amb));
      if ts[|ts| - 1].kind !in amb { at := at + [|ts| - 1]; }
    }
  }

  /** A second prune removes nothing. */
  lemma {:induction false} PruneTwice(ts: seq<Trace>, amb: set<string>)
    ensures Meaningful(Meaningful(ts, amb), amb) == Meaningful(ts, amb)
  {
    if ts != [] {
      PruneTwice(ts[..|ts| - 1], amb);
      MeaningfulSnoc(Meaningful(ts[..|ts| - 1], amb), ts[|ts| - 1], amb);
    }
  }

  /** Prune keeps the order: pruning a whole is pruning its parts. */
  lemma {:induction false} MeaningfulSplit(a: seq<Trace>, b: seq<Trace>, amb: set<string>)
    ensures Meaningful(a + b, amb) == Meaningful(a, amb) + Meaningful(b, amb)
  {
    if b == [] {
      assert a + b == a;
    } else {
      var n := |b| - 1;
      assert (a + b)[..|a + b| - 1] == a + b[..n];
      MeaningfulSplit(a, b[..n], amb);
    }
  }

  // ---- Every sequence of records and prunes ------------------------------------------------------------------

  /** What is ever done to the traces. A world that registers again has the address on its newest trace rewritten. */
  datatype Op = Record(t: Trace) | Prune | Readdress(world: string, address: string)

  /** The first trace of a world, or the number of traces. */
  function FirstOf(ts: seq<Trace>, world: string, from: nat := 0): (k: nat)
    requires from <= |ts|
    ensures from <= k <= |ts| && (k < |ts| ==> ts[k].world == world)
    ensures forall j :: from <= j < k ==> ts[j].world != world
    decreases |ts| - from
  {
    if from == |ts| || ts[from].world == world then from else FirstOf(ts, world, from + 1)
  }

  function Readdressed(ts: seq<Trace>, world: string, address: string): (r: seq<Trace>)
    ensures |r| == |ts| && forall i :: 0 <= i < |r| ==> r[i].(node := ts[i].node) == ts[i]
  {
    var k := FirstOf(ts, world);
    if k < |ts| then ts[k := ts[k].(node := address)] else ts
  }

  /** A registration that finds its world rewrites the address of the first trace of that world, and of no other. */
  lemma ReaddressedExactly(ts: seq<Trace>, world: string, address: string, i: nat)
    requires i < |ts|
    ensures var first := ts[i].world == world && forall j :: 0 <= j < i ==> ts[j].world != world;
            Readdressed(ts, world, address)[i] == if first then ts[i].(node := address) else ts[i]
  {
  }

  function Applied(ts: seq<Trace>, op: Op, amb: set<string>): seq<Trace> {
    match op
    case Record(t) => Kept(t, ts, MAX_TRACES)
    case Prune => Meaningful(ts, amb)
    case Readdress(world, address) => Readdressed(ts, world, address)
  }

  function Fold(ops: seq<Op>, amb: set<string>): (ts: seq<Trace>)
    ensures |ts| <= MAX_TRACES
  {
    if ops == [] then [] else Applied(Fold(ops[..|ops| - 1], amb), ops[|ops| - 1], amb)
  }

  lemma FoldSnoc(ops: seq<Op>, op: Op, amb: set<string>)
    ensures Fold(ops + [op], amb) == Applied(Fold(ops, amb), op, amb)
  {
    SnocPrefix(ops, op);
  }

  function Records(ops: seq<Op>): nat {
    if ops == [] then 0 else Records(ops[..|ops| - 1]) + if ops[|ops| - 1].Record? then 1 else 0
  }

  /** A meaningful trace survives every prune, and every record until two hundred newer ones have come: whatever
      happens after it is recorded, it is still held, no deeper than the records made since, and unchanged except that
      its address may have been rewritten. */
  lemma {:induction false} MeaningfulTracesLast(before: seq<Op>, t: Trace, after: seq<Op>, amb: set<string>)
    returns (i: nat)
    requires t.kind !in amb && Records(after) < 200
    ensures i < |Fold(before + [Record(t)] + after, amb)| && i <= Records(after)
    ensures Fold(before + [Record(t)] + after, amb)[i].(node := t.node) == t
  {
    var ops := before + [Record(t)] + after;
    if after == [] {
      assert ops[..|ops| - 1] == before;
      i := 0;
    } else {
      var init, op := after[..|after| - 1], after[|after| - 1];
      i := MeaningfulTracesLast(before, t, init, amb);
      assert ops[..|ops| - 1] == before + [Record(t)] + init;
      var ts := Fold(ops[..|ops| - 1], amb);
      match op
      case Record(_) => i := i + 1;
      case Prune => i := SurvivorAt(ts, i, amb);
      case Readdress(_, _) =>
    }
  }

  lemma SurvivorAt(ts: seq<Trace>, i: nat, amb: set<string>) returns (j: nat)
    requires i < |ts| && ts[i].kind !in amb
    ensures j <= i && j < |Meaningful(ts, amb)| && Meaningful(ts, amb)[j] == ts[i]
  {
    j := |Meaningful(ts[..i], amb)|;
    assert ts == (ts[..i] + [ts[i]]) + ts[i + 1..];
    MeaningfulSplit(ts[..i] + [ts[i]], ts[i + 1..], amb);
    MeaningfulSnoc(ts[..i], ts[i], amb);
  }

  // ---- The histogram of kinds --------------------------------------------------------------------------------

  /** The kinds that occur, in order of first appearance. */
  ghost function Kinds(ts: seq<Trace>): seq<string> {
    if ts == [] then []
    else
      var ks := Kinds(ts[..|ts| - 1]);
      if ts[|ts| - 1].kind in ks then ks else ks + [ts[|ts| - 1].kind]
  }

  lemma KindsSnoc(ts: seq<Trace>, t: Trace)
    ensures Kinds(ts + [t]) == if t.kind in Kinds(ts) then Kinds(ts) else Kinds(ts) + [t.kind]
  {
    assert (ts + [t])[..|ts|] == ts;
  }

  ghost predicate NoRepeats(ks: seq<string>) { forall i, j :: 0 <= i < j < |ks| ==> ks[i] != ks[j] }

  lemma {:induction false} KindsAreDistinct(ts: seq<Trace>)
    ensures NoRepeats(Kinds(ts))
  {
    if ts != [] { KindsAreDistinct(ts[..|ts| - 1]); }
  }

  lemma {:induction false} KindsOccur(ts: seq<Trace>, k: string)
    ensures k in Kinds(ts) <==> exists i :: 0 <= i < |ts| && ts[i].kind == k
  {
    if ts != [] {
      var init := ts[..|ts| - 1];
      KindsOccur(init, k);
      if k in Kinds(init) { var i :| 0 <= i < |init| && init[i].kind == k; assert ts[i].kind == k; }
    }
  }

  /** Each kind is listed where it first appears: the traces before that have exactly the kinds listed before it. */
  lemma {:induction false} KindsByAppearance(ts: seq<Trace>, i: nat) returns (p: nat)
    requires i < |Kinds(ts)|
    ensures p < |ts| && ts[p].kind == Kinds(ts)[i] && Kinds(ts[..p]) == Kinds(ts)[..i]
  {
    var init := ts[..|ts| - 1];
    if i < |Kinds(init)| {
      p := KindsByAppearance(init, i);
      assert init[..p] == ts[..p] && Kinds(init)[..i] == Kinds(ts)[..i];
    } else {
      p := |init|;
    }
  }

  ghost function Taken<T>(s: seq<T>, n: nat): seq<T> { if |s| <= n then s else s[..n] }

  /** How many traces have a kind in `ks`. */
  ghost function CountIn(ts: seq<Trace>, ks: set<string>): nat {
    if ts == [] then 0 else CountIn(ts[..|ts| - 1], ks) + if ts[|ts| - 1].kind in ks then 1 else 0
  }

  lemma CountSnoc(ts: seq<Trace>, t: Trace, ks: set<string>)
    ensures CountIn(ts + [t], ks) == CountIn(ts, ks) + if t.kind in ks then 1 else 0
  {
    assert (ts + [t])[..|ts|] == ts;
  }

  /** What the histogram promises: one row for each of the first `cap` kinds, with its number of traces. */
  ghost predicate IsHistogram(rows: seq<Row>, ts: seq<Trace>, cap: nat) {
    var ks := Taken(Kinds(ts), cap);
    |rows| == |ks| &&
    forall i :: 0 <= i < |rows| ==> rows[i].kind == ks[i] && rows[i].count == CountIn(ts, {ks[i]})
  }

  /** The sum the C side forms over the rows. */
  function Total(rows: seq<Row>): int {
    if rows == [] then 0 else Total(rows[..|rows| - 1]) + rows[|rows| - 1].count
  }

  ghost function KindSet(ks: seq<string>): set<string> { set k | k in ks }

  /** The traces with a kind in `ks`, by position. */
  ghost function PlacesOf(ts: seq<Trace>, ks: set<string>): set<nat> { set i | 0 <= i < |ts| && ts[i].kind in ks }

  lemma PlacesLast(ts: seq<Trace>, ks: set<string>)
    requires ts != []
    ensures var n := |ts| - 1; var init := PlacesOf(ts[..n], ks);
            n !in init && PlacesOf(ts, ks) == if ts[n].kind in ks then init + {n} else init
  {
  }

  /** Counting is the number of places. */
  lemma {:induction false} CountInIsACount(ts: seq<Trace>, ks: set<string>)
    ensures CountIn(ts, ks) == |PlacesOf(ts, ks)|
  {
    if ts != [] {
      CountInIsACount(ts[..|ts| - 1], ks);
      PlacesLast(ts, ks);
    }
  }

  lemma {:induction false} CountInUnion(ts: seq<Trace>, a: set<string>, b: set<string>)
    requires a !! b
    ensures CountIn(ts, a + b) == CountIn(ts, a) + CountIn(ts, b)
  {
    if ts != [] { CountInUnion(ts[..|ts| - 1], a, b); }
  }

  lemma {:induction false} CountInPositive(ts: seq<Trace>, ks: set<string>)
    ensures CountIn(ts, ks) == 0 <==> forall i :: 0 <= i < |ts| ==> ts[i].kind !in ks
  {
    if ts != [] { CountInPositive(ts[..|ts| - 1], ks); }
  }

  lemma {:induction false} TotalCounts(rows: seq<Row>, ts: seq<Trace>, ks: seq<string>)
    requires |rows| == |ks| && NoRepeats(ks)
    requires forall i :: 0 <= i < |rows| ==> rows[i].count == CountIn(ts, {ks[i]})
    ensures Total(rows) == CountIn(ts, KindSet(ks))
  {
    if rows == [] {
      CountInPositive(ts, KindSet(ks));
    } else {
      var n := |ks| - 1;
      TotalCounts(rows[..n], ts, ks[..n]);
      CountInUnion(ts, KindSet(ks[..n]), {ks[n]});
      assert KindSet(ks) == KindSet(ks[..n]) + {ks[n]} by { assert ks == ks[..n] + [ks[n]]; }
    }
  }

  /** The rows have distinct kinds, and summing them counts the traces of the first `cap` kinds: with no more
      kinds than rows, every trace. */
  lemma HistogramTotal(rows: seq<Row>, ts: seq<Trace>, cap: nat)
    requires IsHistogram(rows, ts, cap)
    ensures forall i, j :: 0 <= i < j < |rows| ==> rows[i].kind != rows[j].kind
    ensures Total(rows) == CountIn(ts, KindSet(Taken(Kinds(ts), cap)))
    ensures |Kinds(ts)| <= cap ==> Total(rows) == |ts|
  {
    KindsAreDistinct(ts);
    TotalCounts(rows, ts, Taken(Kinds(ts), cap));
    if |Kinds(ts)| <= cap {
      forall i | 0 <= i < |ts| ensures ts[i].kind in Kinds(ts) { KindsOccur(ts, ts[i].kind); }
      CountAll(ts, KindSet(Kinds(ts)));
    }
  }

  lemma {:induction false} CountAll(ts: seq<Trace>, ks: set<string>)
    requires forall i :: 0 <= i < |ts| ==> ts[i].kind in ks
    ensures CountIn(ts, ks) == |ts|
  {
    if ts != [] { CountAll(ts[..|ts| - 1], ks); }
  }

  // ---- What gridprune reports --------------------------------------------------------------------------------

  ghost function Without(ks: seq<string>, amb: set<string>): seq<string> {
    if ks == [] then []
    else if ks[|ks| - 1] in amb then Without(ks[..|ks| - 1], amb)
    else Without(ks[..|ks| - 1], amb) + [ks[|ks| - 1]]
  }

  lemma WithoutSnoc(ks: seq<string>, k: string, amb: set<string>)
    ensures Without(ks + [k], amb) == if k in amb then Without(ks, amb) else Without(ks, amb) + [k]
  {
    assert (ks + [k])[..|ks|] == ks;
  }

  lemma {:induction false} WithoutKeeps(ks: seq<string>, amb: set<string>)
    ensures KindSet(Without(ks, amb)) == KindSet(ks) - amb
    ensures |Without(ks, amb)| <= |ks|
    ensures KindSet(ks) !! amb ==> Without(ks, amb) == ks
    ensures !(KindSet(ks) !! amb) ==> |Without(ks, amb)| < |ks|
  {
    if ks != [] {
      var init, k := ks[..|ks| - 1], ks[|ks| - 1];
      WithoutKeeps(init, amb);
      KindSetSnoc(init, k);
      KindSetSnoc(Without(init, amb), k);
      assert ks == init + [k];
    }
  }

  lemma KindSetSnoc(ks: seq<string>, k: string)
    ensures KindSet(ks + [k]) == KindSet(ks) + {k}
  {
  }

  lemma {:induction false} WithoutPrefix(a: seq<string>, b: seq<string>, amb: set<string>)
    ensures Without(a, amb) <= Without(a + b, amb)
  {
    if b == [] {
      assert a + b == a;
    } else {
      var n := |b| - 1;
      assert a + b == (a + b[..n]) + [b[n]];
      WithoutPrefix(a, b[..n], amb);
      WithoutSnoc(a + b[..n], b[n], amb);
    }
  }

  lemma {:induction false} KindsOfMeaningful(ts: seq<Trace>, amb: set<string>)
    ensures Kinds(Meaningful(ts, amb)) == Without(Kinds(ts), amb)
  {
    if ts != [] {
      var init, last := ts[..|ts| - 1], ts[|ts| - 1];
      KindsOfMeaningful(init, amb);
      KindsSnoc(Meaningful(init, amb), last);
      WithoutKeeps(Kinds(init), amb);
      WithoutSnoc(Kinds(init), last.kind, amb);
      assert last.kind in KindSet(Without(Kinds(init), amb)) <==> last.kind in KindSet(Kinds(init)) - amb;
    }
  }

  lemma {:induction false} CountMeaningful(ts: seq<Trace>, amb: set<string>, ks: set<string>)
    requires ks !! amb
    ensures CountIn(Meaningful(ts, amb), ks) == CountIn(ts, ks)
    ensures |ts| - |Meaningful(ts, amb)| == CountIn(ts, amb)
  {
    if ts != [] {
      var init, last := ts[..|ts| - 1], ts[|ts| - 1];
      CountMeaningful(init, amb, ks);
      CountSnoc(Meaningful(init, amb), last, ks);
    }
  }

  /** The survivors of the first `cap` kinds are among the first `cap` survivors. */
  lemma FirstSurvivors(ks: seq<string>, cap: nat, amb: set<string>)
    ensures Without(Taken(ks, cap), amb) <= Taken(Without(ks, amb), cap)
  {
    var a := Taken(ks, cap);
    assert ks == a + ks[|a|..];
    WithoutPrefix(a, ks[|a|..], amb);
    WithoutKeeps(a, amb);
  }

  lemma SplitAt(ks: seq<string>, i: nat)
    requires i < |ks|
    ensures ks == (ks[..i] + [ks[i]]) + ks[i + 1..]
  {
  }

  lemma NextInTaken(m: seq<string>, k: string, all: seq<string>, cap: nat)
    requires m + [k] <= all && |m| < cap
    ensures k in Taken(all, cap)
  {
    assert all[|m|] == (m + [k])[|m|];
    assert Taken(all, cap)[|m|] == k;
  }

  /** When ambient kinds sit among the first `cap`, the next kind moves up into the report unless it is ambient. */
  lemma NextKindMovesUp(ks: seq<string>, cap: nat, amb: set<string>)
    requires |ks| > cap && ks[cap] !in amb && !(KindSet(ks[..cap]) !! amb)
    ensures ks[cap] in Taken(Without(ks, amb), cap)
  {
    var front, k := ks[..cap], ks[cap];
    WithoutKeeps(front, amb);
    WithoutSnoc(front, k, amb);
    SplitAt(ks, cap);
    WithoutPrefix(front + [k], ks[cap + 1..], amb);
    NextInTaken(Without(front, amb), k, Without(ks, amb), cap);
  }

  /** The report before splits into ambient and other traces of the first kinds, the report after into the latter
      and newcomers. */
  lemma {:induction false} ReportDifference(ts: seq<Trace>, p: set<string>, q: set<string>, amb: set<string>)
    requires p - amb <= q && q !! amb
    ensures CountIn(ts, p) + CountIn(ts, amb - p) + CountIn(ts, q - p) == CountIn(ts, amb) + CountIn(ts, q)
  {
    if ts != [] { ReportDifference(ts[..|ts| - 1], p, q, amb); }
  }

  /** No ambient trace was uncounted and no newcomer moved up exactly when everything was counted or nothing was
      ambient. */
  lemma NothingLeftOver(ts: seq<Trace>, cap: nat, amb: set<string>)
    ensures var ks := Kinds(ts);
            var p, q := KindSet(Taken(ks, cap)), KindSet(Taken(Without(ks, amb), cap));
            (CountIn(ts, amb - p) == 0 && CountIn(ts, q - p) == 0) <==> (|ks| <= cap || CountIn(ts, amb) == 0)
  {
    var ks := Kinds(ts);
    var p, q := KindSet(Taken(ks, cap)), KindSet(Taken(Without(ks, amb), cap));
    CountInPositive(ts, amb - p);
    CountInPositive(ts, q - p);
    CountInPositive(ts, amb);
    WithoutKeeps(ks, amb);
    forall i | 0 <= i < |ts| ensures ts[i].kind in ks { KindsOccur(ts, ts[i].kind); }
    if CountIn(ts, amb) == 0 {
      forall k | k in ks ensures k !in amb { KindsOccur(ts, k); }
      assert p == q;
    } else if |ks| <= cap {
      assert forall k :: k in q ==> k in KindSet(Without(ks, amb));
    } else {
      KindsAreDistinct(ts);
      KindsOccur(ts, ks[cap]);
      assert ks[cap] !in p;
      var i :| 0 <= i < |ts| && ts[i].kind in amb;
      if ts[i].kind in p && ks[cap] !in amb { NextKindMovesUp(ks, cap, amb); }
    }
  }

  /** The three numbers `gridprune` prints add up exactly when the store held no more kinds than the report has
      rows, or when nothing was removed. With more kinds, a removed kind either went uncounted before or made
      room in the second report for a kind the first one left out. */
  lemma PruneReportAddsUpExactlyWhen(ts: seq<Trace>, before: seq<Row>, after: seq<Row>, cap: nat, amb: set<string>)
    requires IsHistogram(before, ts, cap) && IsHistogram(after, Meaningful(ts, amb), cap)
    ensures var removed := |ts| - |Meaningful(ts, amb)|;
            Total(before) == removed + Total(after) <==> |Kinds(ts)| <= cap || removed == 0
  {
    var ks := Kinds(ts);
    var p, q := KindSet(Taken(ks, cap)), KindSet(Taken(Without(ks, amb), cap));
    KindsOfMeaningful(ts, amb);
    HistogramTotal(before, ts, cap);
    HistogramTotal(after, Meaningful(ts, amb), cap);
    WithoutKeeps(ks, amb);
    assert forall k :: k in q ==> k in KindSet(Without(ks, amb));
    FirstSurvivors(ks, cap, amb);
    WithoutKeeps(Taken(ks, cap), amb);
    forall k | k in p - amb ensures k in q {
      assert k in KindSet(Without(Taken(ks, cap), amb));
    }
    CountMeaningful(ts, amb, q);
    ReportDifference(ts, p, q, amb);
    NothingLeftOver(ts, cap, amb);
  }

  // ---- The kinds a local store can hold ------------------------------------------------------------------------

  /** The kinds that are ever recorded locally: the six seeds, rescues and registrations of `asm/grid_local.asm`
      (lines 79-105), and the marks and kills of `ffi/grid_hub.c` (lines 321 and 364). */
  const LOCAL_KINDS: set<string> :=
    {"slain", "oath", "death", "ghost", "passage", "recall", "rescue", "register", "mark"}

  ghost predicate Local(ops: seq<Op>) { forall i :: 0 <= i < |ops| && ops[i].Record? ==> ops[i].t.kind in LOCAL_KINDS }

  ghost predicate OfLocalKinds(ts: seq<Trace>) { forall i :: 0 <= i < |ts| ==> ts[i].kind in LOCAL_KINDS }

  lemma LocalKindFits(kind: string)
    requires kind in LOCAL_KINDS
    ensures CopyCap(kind, 24) == kind
  {
  }

  lemma LocalSnoc(ops: seq<Op>, op: Op)
    requires Local(ops) && (op.Record? ==> op.t.kind in LOCAL_KINDS)
    ensures Local(ops + [op])
  {
  }

  lemma {:induction false} PruneKeepsLocalKinds(ts: seq<Trace>, amb: set<string>)
    requires OfLocalKinds(ts)
    ensures OfLocalKinds(Meaningful(ts, amb))
  {
    if ts != [] { PruneKeepsLocalKinds(ts[..|ts| - 1], amb); }
  }

  lemma {:induction false} LocalStoreHasLocalKinds(ops: seq<Op>, amb: set<string>)
    requires Local(ops)
    ensures OfLocalKinds(Fold(ops, amb))
  {
    if ops != [] {
      var init, op := ops[..|ops| - 1], ops[|ops| - 1];
      LocalStoreHasLocalKinds(init, amb);
      match op
      case Record(t) => assert ops[|ops| - 1].t.kind in LOCAL_KINDS;
      case Prune => PruneKeepsLocalKinds(Fold(init, amb), amb);
      case Readdress(world, address) => AddressesHaveNoKind(Fold(init, amb), world, address);
    }
  }

  lemma AddressesHaveNoKind(ts: seq<Trace>, world: string, address: string)
    requires OfLocalKinds(ts)
    ensures OfLocalKinds(Readdressed(ts, world, address))
  {
    var r := Readdressed(ts, world, address);
    forall i | 0 <= i < |r| ensures r[i].kind in LOCAL_KINDS { assert r[i].(node := ts[i].node) == ts[i]; }
  }

  lemma {:induction false} DistinctFit(ks: seq<string>, all: set<string>)
    requires NoRepeats(ks) && forall k :: k in ks ==> k in all
    ensures |ks| <= |all|
  {
    if ks != [] {
      var init, last := ks[..|ks| - 1], ks[|ks| - 1];
      assert last !in init;
      DistinctFit(init, all - {last});
    }
  }

  /** Whatever is done to a local store, it never holds more than nine kinds. */
  lemma LocalKindsAreFew(ops: seq<Op>, amb: set<string>)
    requires Local(ops)
    ensures |Kinds(Fold(ops, amb))| <= 9
  {
    var ks := Kinds(Fold(ops, amb));
    LocalStoreHasLocalKinds(ops, amb);
    KindsAreDistinct(Fold(ops, amb));
    forall k | k in ks ensures k in LOCAL_KINDS { KindsOccur(Fold(ops, amb), k); }
    DistinctFit(ks, LOCAL_KINDS);
  }

  /** So on a local store the three numbers of `gridprune` always add up. */
  lemma LocalPruneReportAddsUp(ops: seq<Op>, before: seq<Row>, after: seq<Row>)
    requires Local(ops)
    requires var ts := Fold(ops, AMBIENT);
             IsHistogram(before, ts, LEDGER_ROWS) && IsHistogram(after, Meaningful(ts, AMBIENT), LEDGER_ROWS)
    ensures var ts := Fold(ops, AMBIENT); Total(before) == |ts| - |Meaningful(ts, AMBIENT)| + Total(after)
  {
    LocalKindsAreFew(ops, AMBIENT);
    PruneReportAddsUpExactlyWhen(Fold(ops, AMBIENT), before, after, LEDGER_ROWS, AMBIENT);
  }

  /** Thirty-three traces of different kinds, the first of them ambient. */
  function Crowded(n: nat): (ts: seq<Trace>)
    requires n <= 33
    ensures |ts| == n
  {
    seq(n, i requires 0 <= i < n => Trace("", "", if i == 0 then "ghost" else [(64 + i) as char], "", 0))
  }

  lemma {:induction false} CrowdedKinds(n: nat)
    requires n <= 33
    ensures |Kinds(Crowded(n))| == n
    ensures forall i :: 0 <= i < n ==> Kinds(Crowded(n))[i] == Crowded(n)[i].kind
  {
    if n > 0 {
      CrowdedKinds(n - 1);
      assert Crowded(n)[..n - 1] == Crowded(n - 1);
    }
  }

  /** With 33 kinds in the store, as a remote one may have, the three numbers can disagree. */
  lemma PruneReportCanDisagree(before: seq<Row>, after: seq<Row>)
    requires IsHistogram(before, Crowded(33), LEDGER_ROWS)
    requires IsHistogram(after, Meaningful(Crowded(33), AMBIENT), LEDGER_ROWS)
    ensures Total(before) != |Crowded(33)| - |Meaningful(Crowded(33), AMBIENT)| + Total(after)
  {
    var ts := Crowded(33);
    CrowdedKinds(33);
    CountMeaningful(ts, AMBIENT, {});
    CountInPositive(ts, AMBIENT);
    assert ts[0].kind in AMBIENT;
    PruneReportAddsUpExactlyWhen(ts, before, after, LEDGER_ROWS, AMBIENT);
  }

  // ---- The cast ring -----------------------------------------------------------------------------------------

  ghost predicate Numbered(all: seq<Cast>) { forall i :: 0 <= i < |all| ==> all[i].id == i + 1 }

  /** What the ring must hold after the casts `all`: the newest two hundred, each in the slot `(id - 1) % 200`. */
  ghost predicate IsRing(ring: seq<Cast>, all: seq<Cast>) {
    |ring| == (if |all| < MAX_CASTS then |all| else MAX_CASTS) &&
    forall i :: 0 <= i < |all| <= i + MAX_CASTS ==> ring[Slot(i)] == all[i]
  }

  function Slot(i: nat): (k: nat)
    ensures k < MAX_CASTS && (i < MAX_CASTS ==> k == i)
  {
    i % MAX_CASTS
  }

  lemma SlotsDiffer(i: nat, j: nat)
    requires i < j < i + MAX_CASTS
    ensures Slot(i) != Slot(j)
  {
  }

  /** The cast with id `id` sits in slot `(id - 1) % 200` while it is one of the newest two hundred. */
  lemma CastSits(ring: seq<Cast>, all: seq<Cast>, id: int)
    requires IsRing(ring, all) && Numbered(all) && 1 <= id <= |all| < id + 200
    ensures (id - 1) % 200 < |ring| && ring[(id - 1) % 200] == all[id - 1] && all[id - 1].id == id
  {
    assert ring[Slot(id - 1)] == all[id - 1];
  }

  /** One more cast fills the next slot or overwrites the oldest cast. */
  lemma RingStep(ring: seq<Cast>, all: seq<Cast>, c: Cast)
    requires IsRing(ring, all)
    ensures IsRing(if |all| < MAX_CASTS then ring + [c] else ring[Slot(|all|) := c], all + [c])
  {
    forall i | 0 <= i < |all| < i + MAX_CASTS ensures Slot(i) != Slot(|all|) { SlotsDiffer(i, |all|); }
  }

  lemma NumberedSnoc(all: seq<Cast>, c: Cast)
    requires Numbered(all) && c.id == |all| + 1
    ensures Numbered(all + [c])
  {
  }

  lemma RingUntilFull(ring: seq<Cast>, all: seq<Cast>)
    requires IsRing(ring, all) && |all| < MAX_CASTS
    ensures ring == all
  {
    assert forall i :: 0 <= i < |all| ==> ring[Slot(i)] == all[i];
  }

  /** Where the current lap began. */
  function LapStart(n: nat): (lap: nat)
    ensures lap <= n < lap + MAX_CASTS && lap % MAX_CASTS == 0
  {
    n - n % MAX_CASTS
  }

  lemma SlotInLap(lap: nat, i: nat)
    requires lap % MAX_CASTS == 0 && lap <= i + MAX_CASTS && i < lap + MAX_CASTS
    ensures Slot(i) == if i >= lap then i - lap else i - lap + MAX_CASTS
  {
  }

  /** A full ring slot by slot: the current lap, then what is left of the one before it. So every slot holds a
      retained cast, and no cast sits in two. */
  lemma RingIsTwoLaps(ring: seq<Cast>, all: seq<Cast>, lap: nat)
    requires IsRing(ring, all) && MAX_CASTS <= |all| && lap == LapStart(|all|)
    ensures ring == all[lap..|all|] + all[|all| - MAX_CASTS..lap]
  {
    var n := |all|;
    var laps := all[lap..n] + all[n - MAX_CASTS..lap];
    forall k | 0 <= k < MAX_CASTS ensures ring[k] == laps[k] {
      var i := if k < n - lap then lap + k else lap - MAX_CASTS + k;
      SlotInLap(lap, i);
      assert ring[Slot(i)] == all[i];
    }
  }

  ghost function Since(casts: seq<Cast>, since: int): seq<Cast> {
    if casts == [] then []
    else if casts[|casts| - 1].id > since then Since(casts[..|casts| - 1], since) + [casts[|casts| - 1]]
    else Since(casts[..|casts| - 1], since)
  }

  /** The casts of `all` from position `lo` to `hi` whose ids pass `since`, oldest first. */
  ghost function NewerIn(all: seq<Cast>, lo: nat, hi: nat, since: int): seq<Cast>
    requires lo <= hi <= |all|
  {
    if since <= lo then all[lo..hi] else if since >= hi then [] else all[since..hi]
  }

  /** They are exactly the casts of that stretch with ids above `since`. */
  lemma NewerInIsExact(all: seq<Cast>, lo: nat, hi: nat, since: int) returns (from: nat)
    requires lo <= hi <= |all| && Numbered(all)
    ensures lo <= from <= hi && NewerIn(all, lo, hi, since) == all[from..hi]
    ensures forall i :: lo <= i < hi ==> (all[i].id > since <==> from <= i)
  {
    from := if since <= lo then lo else if since >= hi then hi else since;
  }

  lemma {:induction false} SinceSplit(a: seq<Cast>, b: seq<Cast>, since: int)
    ensures Since(a + b, since) == Since(a, since) + Since(b, since)
  {
    if b == [] {
      assert a + b == a;
    } else {
      var n := |b| - 1;
      assert (a + b)[..|a + b| - 1] == a + b[..n];
      SinceSplit(a, b[..n], since);
    }
  }

  lemma {:induction false} AllNewer(cs: seq<Cast>, since: int)
    requires forall i :: 0 <= i < |cs| ==> cs[i].id > since
    ensures Since(cs, since) == cs
  {
    if cs != [] { AllNewer(cs[..|cs| - 1], since); }
  }

  lemma {:induction false} NoneNewer(cs: seq<Cast>, since: int)
    requires forall i :: 0 <= i < |cs| ==> cs[i].id <= since
    ensures Since(cs, since) == []
  {
    if cs != [] { NoneNewer(cs[..|cs| - 1], since); }
  }

  lemma SinceOfRun(all: seq<Cast>, run: seq<Cast>, lo: nat, hi: nat, since: int)
    requires lo <= hi <= |all| && Numbered(all) && run == all[lo..hi]
    ensures Since(run, since) == NewerIn(all, lo, hi, since)
  {
    var from := NewerInIsExact(all, lo, hi, since);
    assert run == all[lo..from] + all[from..hi];
    SinceSplit(all[lo..from], all[from..hi], since);
    NoneNewer(all[lo..from], since);
    AllNewer(all[from..hi], since);
  }

  /** The retained casts newer than `since` as a reader of the ring meets them: in ascending order before the ring
      has wrapped, and after that as two ascending runs, the current lap before the last one. */
  ghost function AsRead(all: seq<Cast>, since: int): seq<Cast> {
    var n := |all|;
    if n < MAX_CASTS then NewerIn(all, 0, n, since)
    else NewerIn(all, LapStart(n), n, since) + NewerIn(all, n - MAX_CASTS, LapStart(n), since)
  }

  /** Filtering the slots in order yields exactly those. */
  lemma CastsSinceIsComplete(ring: seq<Cast>, all: seq<Cast>, since: int)
    requires IsRing(ring, all) && Numbered(all)
    ensures Since(ring, since) == AsRead(all, since)
  {
    if |all| < MAX_CASTS {
      SinceOfFilling(ring, all, since);
    } else {
      RingIsTwoLaps(ring, all, LapStart(|all|));
      SinceOfLaps(ring, all, |all| - MAX_CASTS, LapStart(|all|), |all|, since);
    }
  }

  lemma SinceOfFilling(ring: seq<Cast>, all: seq<Cast>, since: int)
    requires IsRing(ring, all) && Numbered(all) && |all| < MAX_CASTS
    ensures Since(ring, since) == NewerIn(all, 0, |all|, since)
  {
    RingUntilFull(ring, all);
    assert all[0..|all|] == all;
    SinceOfRun(all, ring, 0, |all|, since);
  }

  lemma SinceOfLaps(ring: seq<Cast>, all: seq<Cast>, lo: nat, mid: nat, hi: nat, since: int)
    requires lo <= mid <= hi <= |all| && Numbered(all) && ring == all[mid..hi] + all[lo..mid]
    ensures Since(ring, since) == NewerIn(all, mid, hi, since) + NewerIn(all, lo, mid, since)
  {
    SinceSplit(all[mid..hi], all[lo..mid], since);
    SinceOfRun(all, all[mid..hi], mid, hi, since);
    SinceOfRun(all, all[lo..mid], lo, mid, since);
  }

  /** Nothing retained and newer is missed and nothing is read twice. */
  lemma CastsAreReadOnce(all: seq<Cast>, since: int)
    ensures var n := |all|; var oldest := if n < MAX_CASTS then 0 else n - MAX_CASTS;
            multiset(AsRead(all, since)) == multiset(NewerIn(all, oldest, n, since))
  {
    var n := |all|;
    if n >= MAX_CASTS {
      var lap := LapStart(n);
      NewerJoin(all, n - MAX_CASTS, lap, n, since);
      Swapped(NewerIn(all, lap, n, since), NewerIn(all, n - MAX_CASTS, lap, since));
    }
  }

  ghost predicate IdsAscend(cs: seq<Cast>) { forall i, j :: 0 <= i < j < |cs| ==> cs[i].id < cs[j].id }

  lemma NewerInAscends(all: seq<Cast>, lo: nat, hi: nat, since: int)
    requires lo <= hi <= |all| && Numbered(all)
    ensures IdsAscend(NewerIn(all, lo, hi, since))
    ensures forall i :: 0 <= i < |NewerIn(all, lo, hi, since)| ==> lo < NewerIn(all, lo, hi, since)[i].id <= hi
  {
    var from := if since <= lo then lo else if since >= hi then hi else since;
    assert NewerIn(all, lo, hi, since) == all[from..hi];
  }

  /** The answer is two ascending runs, the second of older casts, so it falls back at most once; while the ring has
      not wrapped there is only one run. */
  lemma CastsComeInOrder(all: seq<Cast>, since: int) returns (newer: seq<Cast>, older: seq<Cast>)
    requires Numbered(all)
    ensures AsRead(all, since) == newer + older && IdsAscend(newer) && IdsAscend(older)
    ensures forall i, j :: 0 <= i < |newer| && 0 <= j < |older| ==> newer[i].id > older[j].id
    ensures |all| <= MAX_CASTS ==> newer == []
  {
    var n := |all|;
    if n < MAX_CASTS {
      newer, older := [], NewerIn(all, 0, n, since);
      NewerInAscends(all, 0, n, since);
    } else {
      var lap := LapStart(n);
      newer, older := TwoRuns(all, n - MAX_CASTS, lap, n, since);
      assert n == MAX_CASTS ==> lap == n && newer == [];
    }
  }

  lemma TwoRuns(all: seq<Cast>, lo: nat, mid: nat, hi: nat, since: int) returns (newer: seq<Cast>, older: seq<Cast>)
    requires lo <= mid <= hi <= |all| && Numbered(all)
    ensures newer == NewerIn(all, mid, hi, since) && older == NewerIn(all, lo, mid, since)
    ensures IdsAscend(newer) && IdsAscend(older)
    ensures forall i, j :: 0 <= i < |newer| && 0 <= j < |older| ==> newer[i].id > older[j].id
  {
    newer, older := NewerIn(all, mid, hi, since), NewerIn(all, lo, mid, since);
    NewerInAscends(all, mid, hi, since);
    NewerInAscends(all, lo, mid, since);
  }

  lemma Swapped<T>(a: seq<T>, b: seq<T>)
    ensures multiset(a + b) == multiset(b + a)
  {
  }

  lemma NewerJoin(all: seq<Cast>, lo: nat, mid: nat, hi: nat, since: int)
    requires lo <= mid <= hi <= |all|
    ensures NewerIn(all, lo, mid, since) + NewerIn(all, mid, hi, since) == NewerIn(all, lo, hi, since)
  {
  }
}
