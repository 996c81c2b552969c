/** Saving a character file (`hg_store_save`, from the open on) against crashes: a temporary file, a write loop with
    short writes, fsync, rename, fsync of the directory. The model of the disk keeps apart what a running process
    sees and what may be left after a power loss. */
module SaveCrash {
  /** A file's bytes, and whether they are safely on disk; if not, a power loss may leave anything in it. */
  datatype Inode = Inode(data: string, clean: bool)

  datatype Entry = NoFile | File(inode: Inode)

  /** The temporary name, the character's name as processes see it, and the entries the directory on disk may hold
      for the character's name after a power loss. */
  datatype Disk = Disk(temp: Entry, target: Entry, onDisk: set<Entry>)

  datatype Content = Absent | Bytes(data: string)

  /** What may be found under the character's name if everything stops here: what it held for other processes, or
      what a power loss leaves. */
  ghost predicate Observable(d: Disk, c: Content) {
    c == Live(d) || exists e :: e in d.onDisk && MayHold(e, c)
  }

  function Live(d: Disk): Content { if d.target.NoFile? then Absent else Bytes(d.target.inode.data) }

  predicate MayHold(e: Entry, c: Content) {
    match e
    case NoFile => c == Absent
    case File(i) => c.Bytes? && (i.clean ==> c.data == i.data)
  }

  // ---- The steps of a save -----------------------------------------------------------------------------------

  /** The system call that comes next. */
  datatype Pc = Open | Write(left: string) | Sync | Close | Rename | SyncDir | Ended(ok: bool)

  datatype Point = Point(pc: Pc, disk: Disk)

  function Appended(e: Entry, bytes: string): Entry {
    if e.NoFile? then e else File(Inode(e.inode.data + bytes, false))
  }

  function Synced(e: Entry): Entry { if e.NoFile? then e else File(e.inode.(clean := true)) }

  function Renamed(d: Disk): Disk { Disk(NoFile, d.temp, d.onDisk + {d.temp}) }

  /** One system call with any outcome the system may give it. */
  ghost predicate CanStep(rec: string, p: Point, q: Point) {
    var d := p.disk;
    match p.pc
    case Open =>
      q == Point(Ended(false), d) || q == Point(Write(rec), d.(temp := File(Inode("", false))))
    case Write(left) =>
      if left == "" then q == Point(Sync, d)
      else
        q == Point(Ended(false), d) ||
        exists n :: 1 <= n <= |left| && q == Point(Write(left[n..]), d.(temp := Appended(d.temp, left[..n])))
    case Sync => q == Point(Ended(false), d) || q == Point(Close, d.(temp := Synced(d.temp)))
    case Close => q == Point(Ended(false), d) || q == Point(Rename, d)
    case Rename => q == Point(Ended(false), d) || q == Point(SyncDir, Renamed(d))
    case SyncDir => q == Point(Ended(true), d) || q == Point(Ended(true), d.(onDisk := {d.target}))
    case Ended(_) => false
  }

  ghost predicate IsTrace(rec: string, start: Disk, trace: seq<Point>) {
    |trace| > 0 && trace[0] == Point(Open, start) &&
    forall k :: 0 <= k < |trace| - 1 ==> CanStep(rec, trace[k], trace[k + 1])
  }

  /** Where a save stands at each point. */
  ghost predicate Sound(rec: string, start: Disk, p: Point) {
    var d := p.disk;
    var untouched := d.target == start.target && d.onDisk == start.onDisk;
    match p.pc
    case Open => d == start
    case Write(left) => untouched && d.temp.File? && d.temp.inode.data + left == rec
    case Sync => untouched && d.temp.File? && d.temp.inode.data == rec
    case Close => untouched && d.temp == File(Inode(rec, true))
    case Rename => untouched && d.temp == File(Inode(rec, true))
    case SyncDir => d.target == File(Inode(rec, true)) && d.onDisk <= start.onDisk + {d.target}
    case Ended(ok) =>
      if ok then d.target == File(Inode(rec, true)) && d.onDisk <= start.onDisk + {d.target} else untouched
  }

  lemma StepKeepsSound(rec: string, start: Disk, p: Point, q: Point)
    requires Sound(rec, start, p) && CanStep(rec, p, q)
    ensures Sound(rec, start, q)
  {
    if p.pc.Write? && p.pc.left != "" && q.pc.Write? {
      var left := p.pc.left;
      var n :| 1 <= n <= |left| && q == Point(Write(left[n..]), p.disk.(temp := Appended(p.disk.temp, left[..n])));
      assert left == left[..n] + left[n..];
      assert p.disk.temp.inode.data + left[..n] + left[n..] == rec;
    }
  }

  lemma {:induction false} TraceIsSound(rec: string, start: Disk, trace: seq<Point>, k: nat)
    requires IsTrace(rec, start, trace) && k < |trace|
    ensures Sound(rec, start, trace[k])
  {
    if k > 0 {
      TraceIsSound(rec, start, trace, k - 1);
      assert CanStep(rec, trace[k - 1], trace[(k - 1) + 1]);
      StepKeepsSound(rec, start, trace[k - 1], trace[k]);
    }
  }

  /** Stopping a save at any point, by a crash of the process or of the machine, after any pattern of short writes
      and failures, leaves under the character's name either what could have been there before the save or the
      complete new record. A save that reports an error has not touched the character's file; one that reports
      success has put the complete record in place. */
  lemma CrashLeavesOldOrNew(rec: string, start: Disk, trace: seq<Point>, k: nat, c: Content)
    requires IsTrace(rec, start, trace) && k < |trace|
    ensures Observable(trace[k].disk, c) ==> Observable(start, c) || c == Bytes(rec)
    ensures trace[k].pc == Ended(false) ==>
      trace[k].disk.target == start.target && trace[k].disk.onDisk == start.onDisk
    ensures trace[k].pc == Ended(true) ==> Live(trace[k].disk) == Bytes(rec)
  {
    TraceIsSound(rec, start, trace, k);
  }

  // ---- Lives with many saves and crashes ---------------------------------------------------------------------

  /** A save run up to some point, or a reboot that finds `found`. */
  datatype Episode = Save(rec: string, trace: seq<Point>) | Reboot(found: Content, temp: Entry)

  ghost predicate EpisodeFits(d: Disk, e: Episode) {
    match e
    case Save(rec, trace) => IsTrace(rec, d, trace)
    case Reboot(found, _) => Observable(d, found)
  }

  function EntryWith(c: Content): Entry { if c.Absent? then NoFile else File(Inode(c.data, true)) }

  ghost function DiskAfter(d: Disk, e: Episode): Disk
    requires EpisodeFits(d, e)
  {
    match e
    case Save(rec, trace) => trace[|trace| - 1].disk
    case Reboot(found, temp) => Disk(temp, EntryWith(found), {EntryWith(found)})
  }

  ghost predicate IsLife(d: Disk, es: seq<Episode>)
    decreases |es|
  {
    es == [] || (EpisodeFits(d, es[0]) && IsLife(DiskAfter(d, es[0]), es[1..]))
  }

  ghost function EndOfLife(d: Disk, es: seq<Episode>): Disk
    requires IsLife(d, es)
    decreases |es|
  {
    if es == [] then d else EndOfLife(DiskAfter(d, es[0]), es[1..])
  }

  /** After any number of saves, each completed or cut short, and any number of reboots, the file is what it was at
      first or one of the complete records that were being saved: never a mixture, never a fragment. */
  lemma {:induction false} EveryLifeKeepsWholeRecords(d: Disk, es: seq<Episode>, c: Content)
    requires IsLife(d, es) && Observable(EndOfLife(d, es), c)
    ensures Observable(d, c) || exists i :: 0 <= i < |es| && es[i].Save? && c == Bytes(es[i].rec)
    decreases |es|
  {
    if es != [] {
      EveryLifeKeepsWholeRecords(DiskAfter(d, es[0]), es[1..], c);
      if Observable(DiskAfter(d, es[0]), c) {
        match es[0]
        case Save(rec, trace) => CrashLeavesOldOrNew(rec, d, trace, |trace| - 1, c);
        case Reboot(found, temp) => assert c == found;
      } else {
        var i :| 0 <= i < |es[1..]| && es[1..][i].Save? && c == Bytes(es[1..][i].rec);
        assert es[i + 1] == es[1..][i];
      }
    }
  }

  // ---- The code ----------------------------------------------------------------------------------------------

  /** The system calls on one character's files. Their outcomes are the system's to choose. */
  class Files {
    var disk: Disk
    /** Whether a call that the save depends on has failed, and whether the last sync of the directory has. */
    ghost var refused: bool
    ghost var dirRefused: bool

    constructor (d: Disk)
      ensures disk == d && !refused && !dirRefused
    {
      disk := d;
      refused, dirRefused := false, false;
    }

    method OpenTemp() returns (ok: bool)
      modifies this
      ensures disk == if ok then old(disk).(temp := File(Inode("", false))) else old(disk)
      ensures refused == (old(refused) || !ok)
    {
      ok := *;
      refused := refused || !ok;
      if ok { disk := disk.(temp := File(Inode("", false))); }
    }

    /** A short write takes a prefix; zero and negative answers take nothing, and only they are failures. */
    method WriteSome(bytes: string) returns (n: int)
      modifies this
      ensures refused == (old(refused) || n <= 0)
      ensures n <= |bytes|
      ensures disk == if n > 0 then old(disk).(temp := Appended(old(disk).temp, bytes[..n])) else old(disk)
    {
      n := *;
      if n > |bytes| { n := |bytes|; }
      refused := refused || n <= 0;
      if n > 0 { disk := disk.(temp := Appended(disk.temp, bytes[..n])); }
    }

    method FsyncTemp() returns (ok: bool)
      modifies this
      ensures disk == if ok then old(disk).(temp := Synced(old(disk).temp)) else old(disk)
      ensures refused == (old(refused) || !ok)
    {
      ok := *;
      refused := refused || !ok;
      if ok { disk := disk.(temp := Synced(disk.temp)); }
    }

    method CloseTemp() returns (ok: bool)
      modifies this`refused
      ensures refused == (old(refused) || !ok)
    {
      ok := *;
      refused := refused || !ok;
    }

    method RenameTemp() returns (ok: bool)
      modifies this
      ensures disk == if ok then Renamed(old(disk)) else old(disk)
      ensures refused == (old(refused) || !ok)
    {
      ok := *;
      refused := refused || !ok;
      if ok { disk := Renamed(disk); }
    }

    method FsyncDir() returns (ok: bool)
      modifies this
      ensures disk == if ok then old(disk).(onDisk := {old(disk).target}) else old(disk)
      ensures refused == old(refused) && dirRefused == !ok
    {
      ok := *;
      dirRefused := !ok;
      if ok { disk := disk.(onDisk := {disk.target}); }
    }
  }

  /** The write loop: it advances by what each write took, and gives up at the first that took nothing. */
  method WriteAll(f: Files, rec: string, ghost start: Disk, ghost so: seq<Point>)
    returns (ok: bool, ghost trace: seq<Point>)
    requires IsTrace(rec, start, so) && so[|so| - 1] == Point(Write(rec), f.disk)
    modifies f
    ensures IsTrace(rec, start, trace) && so <= trace
    ensures trace[|trace| - 1] == Point(if ok then Write("") else Ended(false), f.disk)
    ensures !old(f.refused) ==> (ok <==> !f.refused)
  {
    var left := rec;
    trace := so;
    while left != ""
      invariant IsTrace(rec, start, trace) && so <= trace && trace[|trace| - 1] == Point(Write(left), f.disk)
      invariant f.refused == old(f.refused)
      decreases |left|
    {
      var n := f.WriteSome(left);
      if n <= 0 {
        trace := trace + [Point(Ended(false), f.disk)];
        return false, trace;
      }
      left := left[n..];
      trace := trace + [Point(Write(left), f.disk)];
    }
    ok := true;
  }

  /** From the written file to the name: fsync, close, rename, fsync of the directory. */
  method Publish(f: Files, rec: string, ghost start: Disk, ghost so: seq<Point>)
    returns (ok: bool, ghost trace: seq<Point>)
    requires IsTrace(rec, start, so) && so[|so| - 1] == Point(Write(""), f.disk)
    modifies f
    ensures IsTrace(rec, start, trace) && trace[|trace| - 1] == Point(Ended(ok), f.disk)
    ensures !old(f.refused) ==> (ok <==> !f.refused)
    ensures ok && !f.dirRefused ==> f.disk.onDisk == {f.disk.target}
  {
    trace := so + [Point(Sync, f.disk)];
    ok := f.FsyncTemp();
    trace := trace + [Point(if ok then Close else Ended(false), f.disk)];
    if ok {
      ok := f.CloseTemp();
      trace := trace + [Point(if ok then Rename else Ended(false), f.disk)];
    }
    if ok {
      ok := f.RenameTemp();
      trace := trace + [Point(if ok then SyncDir else Ended(false), f.disk)];
    }
    if ok {
      var synced := f.FsyncDir();
      trace := trace + [Point(Ended(true), f.disk)];
    }
  }

  /** `hg_store_save` once the record has been printed. Its every run is a trace of the steps above. It fails exactly
      when a call it depends on has failed: the open, a write that took nothing, fsync, close or rename, but neither a
      short write nor the sync of the directory. When that sync has worked too, nothing but the new record can be found
      any more, even after a power loss. */
  method StoreSave(f: Files, rec: string) returns (ok: bool, ghost trace: seq<Point>)
    modifies f
    ensures IsTrace(rec, old(f.disk), trace) && trace[|trace| - 1] == Point(Ended(ok), f.disk)
    ensures !ok ==> f.disk.target == old(f.disk.target) && f.disk.onDisk == old(f.disk.onDisk)
    ensures ok ==> Live(f.disk) == Bytes(rec)
    ensures !old(f.refused) ==> (ok <==> !f.refused)
    ensures ok && !f.dirRefused ==> forall c :: Observable(f.disk, c) ==> c == Bytes(rec)
  {
    ghost var start := f.disk;
    trace := [Point(Open, f.disk)];
    ok := f.OpenTemp();
    trace := trace + [Point(if ok then Write(rec) else Ended(false), f.disk)];
    if ok {
      ok, trace := WriteAll(f, rec, start, trace);
    }
    if ok {
      ok, trace := Publish(f, rec, start, trace);
    }
    CrashLeavesOldOrNew(rec, start, trace, |trace| - 1, Absent);
    TraceIsSound(rec, start, trace, |trace| - 1);
  }
}
