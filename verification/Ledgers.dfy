/** The bounded association tables of `asm/social_ledger.asm`: the deed counters, and the pairs already forgiven or
    kept. Keys are player names, compared without regard to case. */
module Ledgers {
  import opened CStrings

  const DEED_MAX_ENTRIES := 64
  const DEED_KINDS := 13
  const NAME_SIZE := 40

  // ---- Deeds -------------------------------------------------------------------------------------------------

  datatype Deed = Deed(name: string, kind: nat)

  /** The names that have appeared, in lower case and in order of first appearance. */
  ghost function Names(ds: seq<Deed>): seq<string> {
    if ds == [] then []
    else
      var before, key := Names(ds[..|ds| - 1]), Lower(ds[|ds| - 1].name);
      if key in before then before else before + [key]
  }

  /** How often a name has done a deed. */
  ghost function Times(ds: seq<Deed>, key: string, kind: nat): nat {
    if ds == [] then 0
    else Times(ds[..|ds| - 1], key, kind) +
         if Lower(ds[|ds| - 1].name) == key && ds[|ds| - 1].kind == kind then 1 else 0
  }

  ghost function FirstNames(ds: seq<Deed>): seq<string> {
    if |Names(ds)| <= DEED_MAX_ENTRIES then Names(ds) else Names(ds)[..DEED_MAX_ENTRIES]
  }

  /** What a table of sixty-four rows can say. */
  ghost function Reported(ds: seq<Deed>, key: string, kind: nat): nat {
    if key in FirstNames(ds) then Times(ds, key, kind) else 0
  }

  lemma TimesSnoc(ds: seq<Deed>, d: Deed, key: string, kind: nat)
    ensures Times(ds + [d], key, kind) == Times(ds, key, kind) + if Lower(d.name) == key && d.kind == kind then 1 else 0
  {
    assert (ds + [d])[..|ds|] == ds;
  }

  lemma FirstNamesSnoc(ds: seq<Deed>, d: Deed)
    ensures var first, key := FirstNames(ds), Lower(d.name);
            FirstNames(ds + [d]) ==
              if key in first || |first| == DEED_MAX_ENTRIES then first else first + [key]
  {
    assert (ds + [d])[..|ds|] == ds;
  }

  lemma {:induction false} NamesDistinct(ds: seq<Deed>)
    ensures forall i, j :: 0 <= i < j < |Names(ds)| ==> Names(ds)[i] != Names(ds)[j]
  {
    if ds != [] { NamesDistinct(ds[..|ds| - 1]); }
  }

  lemma FirstNamesDistinct(ds: seq<Deed>)
    ensures forall i, j :: 0 <= i < j < |FirstNames(ds)| ==> FirstNames(ds)[i] != FirstNames(ds)[j]
  {
    NamesDistinct(ds);
  }

  lemma {:induction false} UnnamedNeverCounted(ds: seq<Deed>, key: string, kind: nat)
    ensures key !in Names(ds) ==> Times(ds, key, kind) == 0
  {
    if ds != [] { UnnamedNeverCounted(ds[..|ds| - 1], key, kind); }
  }

  /** The deeds of that name and kind, by position. */
  ghost function Matching(ds: seq<Deed>, key: string, kind: nat): set<nat> {
    set i | 0 <= i < |ds| && Lower(ds[i].name) == key && ds[i].kind == kind
  }

  lemma MatchingLast(ds: seq<Deed>, key: string, kind: nat)
    requires ds != []
    ensures var n := |ds| - 1; var init := Matching(ds[..n], key, kind);
            n !in init && Matching(ds, key, kind) == if Lower(ds[n].name) == key && ds[n].kind == kind then init + {n}
                                                     else init
  {
  }

  /** The number of times is the number of such deeds. */
  lemma {:induction false} TimesIsACount(ds: seq<Deed>, key: string, kind: nat)
    ensures Times(ds, key, kind) == |Matching(ds, key, kind)|
  {
    if ds != [] {
      TimesIsACount(ds[..|ds| - 1], key, kind);
      MatchingLast(ds, key, kind);
    }
  }

  class DeedTable {
    const names: array<string>
    const counts: array2<int>
    var n: nat
    /** Every deed added with a name, oldest first. */
    ghost var deeds: seq<Deed>

    ghost predicate Valid()
      reads this, names, counts
    {
      && names.Length == DEED_MAX_ENTRIES == counts.Length0 && counts.Length1 == DEED_KINDS
      && n == |FirstNames(deeds)|
      && forall i :: 0 <= i < n ==> RowHolds(i, FirstNames(deeds)[i], deeds)
    }

    ghost predicate RowHolds(i: nat, key: string, ds: seq<Deed>)
      requires i < names.Length == counts.Length0 && counts.Length1 == DEED_KINDS
      reads names, counts
    {
      Lower(names[i]) == key && forall k :: 0 <= k < DEED_KINDS ==> counts[i, k] == Times(ds, key, k)
    }

    constructor ()
      ensures Valid() && deeds == [] && fresh(names) && fresh(counts)
    {
      names := new string[DEED_MAX_ENTRIES](_ => "");
      counts := new int[DEED_MAX_ENTRIES, DEED_KINDS]((_, _) => 0);
      n, deeds := 0, [];
    }

    /** The scan of the table: the row of a name, or the number of rows. */
    method FindRow(name: string) returns (i: nat)
      requires Valid()
      ensures i <= n && (i < n <==> Lower(name) in FirstNames(deeds))
      ensures i < n ==> FirstNames(deeds)[i] == Lower(name)
    {
      i := 0;
      while i < n && !EqNoCase(names[i], name)
        invariant 0 <= i <= n && forall j :: 0 <= j < i ==> FirstNames(deeds)[j] != Lower(name)
      {
        i := i + 1;
      }
      assert i < n ==> FirstNames(deeds)[i] == Lower(name);
    }

    /** A fresh row for a name that has none. */
    method NewRow(name: string)
      requires Valid() && n < DEED_MAX_ENTRIES && Lower(name) !in FirstNames(deeds)
      modifies this`n, names, counts
      ensures n == old(n) + 1 && Lower(names[old(n)]) == Lower(name)
      ensures RowHolds(old(n), Lower(name), deeds)
      ensures forall i :: 0 <= i < old(n) ==> RowHolds(i, FirstNames(deeds)[i], deeds)
    {
      forall k | 0 <= k < DEED_KINDS ensures Times(deeds, Lower(name), k) == 0 {
        UnnamedNeverCounted(deeds, Lower(name), k);
      }
      forall k | 0 <= k < DEED_KINDS { counts[n, k] := 0; }
      names[n] := name;
      n := n + 1;
    }

    /** One more deed in the row of its name. */
    method Bump(i: nat, kind: nat, ghost d: Deed, ghost keys: seq<string>)
      requires names.Length == counts.Length0 && counts.Length1 == DEED_KINDS && n == |keys| <= names.Length
      requires i < n && kind < DEED_KINDS && d.kind == kind && keys[i] == Lower(d.name)
      requires forall j :: 0 <= j < n && j != i ==> keys[j] != keys[i]
      requires forall j :: 0 <= j < n ==> RowHolds(j, keys[j], deeds)
      modifies counts
      ensures forall j :: 0 <= j < n ==> RowHolds(j, keys[j], deeds + [d])
    {
      counts[i, kind] := counts[i, kind] + 1;
      forall j, k | 0 <= j < n && 0 <= k < DEED_KINDS ensures counts[j, k] == Times(deeds + [d], keys[j], k) {
        TimesSnoc(deeds, d, keys[j], k);
      }
    }

    /** `hg_add_deed_h`. */
    method AddDeed(name: string, kind: nat)
      requires Valid() && |name| < NAME_SIZE && kind < DEED_KINDS
      modifies this, names, counts
      ensures Valid() && deeds == if name == "" then old(deeds) else old(deeds) + [Deed(name, kind)]
    {
      if name == "" {
        return;
      }
      ghost var d := Deed(name, kind);
      FirstNamesSnoc(deeds, d);
      FirstNamesDistinct(deeds + [d]);
      var i := FindRow(name);
      if i == n && n >= DEED_MAX_ENTRIES {
        Crowded(d);
      } else {
        if i == n {
          NewRow(name);
        }
        Bump(i, kind, d, FirstNames(deeds + [d]));
      }
      deeds := deeds + [d];
    }

    /** A deed under a name that found the table full changes no row. */
    lemma Crowded(d: Deed)
      requires Valid() && Lower(d.name) !in FirstNames(deeds)
      ensures forall i :: 0 <= i < n ==> RowHolds(i, FirstNames(deeds)[i], deeds + [d])
    {
      forall i, k | 0 <= i < n && 0 <= k < DEED_KINDS
        ensures Times(deeds + [d], FirstNames(deeds)[i], k) == Times(deeds, FirstNames(deeds)[i], k)
      {
        TimesSnoc(deeds, d, FirstNames(deeds)[i], k);
      }
    }

    /** `hg_deed_count_h`: exactly the deeds added under that name in any case, for the first sixty-four names to
        appear; zero for the names that came too late. */
    method DeedCount(name: string, kind: nat) returns (count: int)
      requires Valid() && kind < DEED_KINDS
      ensures count == Reported(deeds, Lower(name), kind)
      ensures |Names(deeds)| <= DEED_MAX_ENTRIES ==> count == Times(deeds, Lower(name), kind)
    {
      UnnamedNeverCounted(deeds, Lower(name), kind);
      var i := FindRow(name);
      count := 0;
      if i < n {
        count := counts[i, kind];
      }
    }
  }

  /** A name that has appeared has done something. */
  lemma {:induction false} NamedHasDeed(ds: seq<Deed>, key: string) returns (kind: nat)
    requires key in Names(ds)
    ensures Times(ds, key, kind) > 0
  {
    var init, d := ds[..|ds| - 1], ds[|ds| - 1];
    if key in Names(init) { kind := NamedHasDeed(init, key); } else { kind := d.kind; }
  }

  /** All counts of all names are the numbers of their deeds exactly while at most sixty-four names have appeared. */
  lemma CountsAreTrueExactlyWhen(ds: seq<Deed>)
    ensures (forall key, kind :: Reported(ds, key, kind) == Times(ds, key, kind)) <==> |Names(ds)| <= 64
  {
    if |Names(ds)| <= DEED_MAX_ENTRIES {
      forall key, kind | key !in Names(ds) ensures Times(ds, key, kind) == 0 { UnnamedNeverCounted(ds, key, kind); }
    } else {
      var late := Names(ds)[DEED_MAX_ENTRIES];
      NamesDistinct(ds);
      assert late !in FirstNames(ds);
      var kind := NamedHasDeed(ds, late);
      assert Reported(ds, late, kind) == 0;
    }
  }

  // ---- Pairs -------------------------------------------------------------------------------------------------

  datatype Pair = Pair(a: string, b: string)

  function Key(p: Pair): Pair { Pair(Lower(p.a), Lower(p.b)) }

  /** The pairs a table of `cap` rows holds after the attempts `ps`: the first `cap` distinct ones. */
  ghost function Stored(ps: seq<Pair>, cap: nat): seq<Pair> {
    if ps == [] then []
    else
      var before, p := Stored(ps[..|ps| - 1], cap), Key(ps[|ps| - 1]);
      if p in before || |before| >= cap then before else before + [p]
  }

  ghost function Attempts(ps: seq<Pair>, p: Pair): nat {
    if ps == [] then 0 else Attempts(ps[..|ps| - 1], p) + if Key(ps[|ps| - 1]) == p then 1 else 0
  }

  /** How many attempts of a pair found it not yet in the table, and so were rewarded. */
  ghost function Rewards(ps: seq<Pair>, p: Pair, cap: nat): nat {
    if ps == [] then 0
    else
      var init := ps[..|ps| - 1];
      Rewards(init, p, cap) + if Key(ps[|ps| - 1]) == p && p !in Stored(init, cap) then 1 else 0
  }

  /** Two pairs are one entry exactly when both their names agree, each in its place and in any case. */
  lemma SamePairExactlyWhen(p: Pair, q: Pair)
    ensures Key(p) == Key(q) <==> EqNoCase(p.a, q.a) && EqNoCase(p.b, q.b)
  {
  }

  /** The attempts of a pair, by position. */
  ghost function Tries(ps: seq<Pair>, p: Pair): set<nat> { set i | 0 <= i < |ps| && Key(ps[i]) == p }

  lemma TriesLast(ps: seq<Pair>, p: Pair)
    requires ps != []
    ensures var n := |ps| - 1; var init := Tries(ps[..n], p);
            n !in init && Tries(ps, p) == if Key(ps[n]) == p then init + {n} else init
  {
  }

  lemma {:induction false} AttemptsIsACount(ps: seq<Pair>, p: Pair)
    ensures Attempts(ps, p) == |Tries(ps, p)|
  {
    if ps != [] {
      AttemptsIsACount(ps[..|ps| - 1], p);
      TriesLast(ps, p);
    }
  }

  /** The table holds the first pairs that were attempted, as many as it has rows for. */
  lemma {:induction false} StoredByAttempt(ps: seq<Pair>, cap: nat, i: nat) returns (p: nat)
    requires i < |Stored(ps, cap)|
    ensures p < |ps| && Key(ps[p]) == Stored(ps, cap)[i] && Stored(ps[..p], cap) == Stored(ps, cap)[..i]
  {
    var init := ps[..|ps| - 1];
    if i < |Stored(init, cap)| {
      p := StoredByAttempt(init, cap, i);
      assert init[..p] == ps[..p] && Stored(init, cap)[..i] == Stored(ps, cap)[..i];
    } else {
      p := |init|;
    }
  }

  lemma {:induction false} StoredDistinct(ps: seq<Pair>, cap: nat)
    ensures |Stored(ps, cap)| <= cap
    ensures forall i, j :: 0 <= i < j < |Stored(ps, cap)| ==> Stored(ps, cap)[i] != Stored(ps, cap)[j]
  {
    if ps != [] { StoredDistinct(ps[..|ps| - 1], cap); }
  }

  /** A stored pair has been rewarded exactly once, whatever happened since; a pair that met a full table is
      rewarded every time. So no pair is rewarded twice while the table has room. */
  lemma {:induction false} RewardedOnceExactlyWhen(ps: seq<Pair>, p: Pair, cap: nat)
    ensures Rewards(ps, p, cap) == if p in Stored(ps, cap) then 1 else Attempts(ps, p)
    ensures |Stored(ps, cap)| < cap ==> (p in Stored(ps, cap) <==> Attempts(ps, p) > 0)
  {
    if ps != [] {
      RewardedOnceExactlyWhen(ps[..|ps| - 1], p, cap);
      StoredDistinct(ps[..|ps| - 1], cap);
      if |Stored(ps[..|ps| - 1], cap)| < cap && p !in Stored(ps[..|ps| - 1], cap) {
        assert Attempts(ps[..|ps| - 1], p) == 0;
      }
    }
  }

  class PairTable {
    const a: array<string>
    const b: array<string>
    var n: nat
    /** Every attempt to mark a pair, oldest first. */
    ghost var attempts: seq<Pair>

    ghost predicate Valid()
      reads this, a, b
    {
      a.Length == b.Length && a != b && n == |Stored(attempts, a.Length)| && n <= a.Length &&
      forall i :: 0 <= i < n ==> Key(Pair(a[i], b[i])) == Stored(attempts, a.Length)[i]
    }

    constructor (cap: nat)
      ensures Valid() && attempts == [] && a.Length == cap && fresh(a) && fresh(b)
    {
      a := new string[cap](_ => "");
      b := new string[cap](_ => "");
      n, attempts := 0, [];
    }

    /** `already_forgiven_h`, `has_kept_h`. */
    method Has(x: string, y: string) returns (yes: bool)
      requires Valid()
      ensures yes <==> Key(Pair(x, y)) in Stored(attempts, a.Length)
    {
      ghost var stored := Stored(attempts, a.Length);
      for i := 0 to n
        invariant forall j :: 0 <= j < i ==> stored[j] != Key(Pair(x, y))
      {
        assert Key(Pair(a[i], b[i])) == stored[i];
        if EqNoCase(a[i], x) && EqNoCase(b[i], y) {
          return true;
        }
      }
      yes := false;
    }

    /** `mark_forgiven_h`, `mark_kept_h`: remember a new pair while there is room. */
    method Mark(x: string, y: string)
      requires Valid() && |x| < NAME_SIZE && |y| < NAME_SIZE
      modifies this, a, b
      ensures Valid() && attempts == old(attempts) + [Pair(x, y)]
    {
      ghost var p := Pair(x, y);
      var known := Has(x, y);
      assert (attempts + [p])[..|attempts|] == attempts;
      attempts := attempts + [p];
      if known || n >= a.Length {
        return;
      }
      a[n], b[n] := x, y;
      n := n + 1;
    }

    /** How `forgive` and `witness` use the table: look first, and reward and mark only what is new. An attempt that
        is not rewarded leaves the table as it was. */
    method RewardOnce(x: string, y: string) returns (rewarded: bool)
      requires Valid() && |x| < NAME_SIZE && |y| < NAME_SIZE
      modifies this, a, b
      ensures Valid() && attempts == old(attempts) + [Pair(x, y)]
      ensures Rewards(attempts, Key(Pair(x, y)), a.Length) ==
        Rewards(old(attempts), Key(Pair(x, y)), a.Length) + if rewarded then 1 else 0
    {
      ghost var p := Pair(x, y);
      var known := Has(x, y);
      rewarded := !known;
      assert (attempts + [p])[..|attempts|] == attempts;
      if rewarded {
        Mark(x, y);
      } else {
        attempts := attempts + [p];
      }
    }
  }
}
