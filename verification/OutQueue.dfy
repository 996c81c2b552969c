/** The bounded output buffer of a session: `hg_session_queue` and the writable branch of `asm/session.asm`. */
module OutQueue {
  const OUT_CAP := 16384

  datatype Event = Queue(msg: string) | Write(ok: bool)

  /** What is in the buffer, what has gone out, and the part taken of each message queued so far. */
  datatype Out = Out(pending: string, sent: string, taken: seq<string>)

  function Taken(msg: string, pending: string): (r: string)
    ensures r <= msg
  {
    var room := if |pending| < OUT_CAP then OUT_CAP - |pending| else 0;
    if |msg| <= room then msg else msg[..room]
  }

  function Step(o: Out, e: Event): Out {
    match e
    case Queue(msg) => o.(pending := o.pending + Taken(msg, o.pending), taken := o.taken + [Taken(msg, o.pending)])
    case Write(ok) => if ok then o.(pending := "", sent := o.sent + o.pending) else o
  }

  function Run(es: seq<Event>): Out {
    if es == [] then Out("", "", []) else Step(Run(es[..|es| - 1]), es[|es| - 1])
  }

  function Messages(es: seq<Event>): seq<string> {
    if es == [] then []
    else match es[|es| - 1]
      case Queue(msg) => Messages(es[..|es| - 1]) + [msg]
      case Write(_) => Messages(es[..|es| - 1])
  }

  function Flatten(parts: seq<string>): string {
    if parts == [] then "" else Flatten(parts[..|parts| - 1]) + parts[|parts| - 1]
  }

  /** Whether every message found room for all of itself. */
  predicate NeverCut(es: seq<Event>) {
    es == [] ||
    (NeverCut(es[..|es| - 1]) &&
     (es[|es| - 1].Queue? ==> |Run(es[..|es| - 1]).pending| + |es[|es| - 1].msg| <= OUT_CAP))
  }

  lemma FlattenSnoc(parts: seq<string>, s: string)
    ensures Flatten(parts + [s]) == Flatten(parts) + s
  {
    assert (parts + [s])[..|parts|] == parts;
  }

  /** Over every interleaving of messages and writes: what went out, followed by what is pending, is exactly a
      prefix of each message in turn, nothing between them, lost or repeated, and the buffer never overflows. */
  lemma {:induction false} NothingLostOrReordered(es: seq<Event>)
    ensures var o := Run(es);
            && o.sent + o.pending == Flatten(o.taken)
            && |o.pending| <= 16384 && |o.taken| == |Messages(es)|
            && forall i :: 0 <= i < |o.taken| ==> o.taken[i] <= Messages(es)[i]
  {
    if es != [] {
      var before, e := Run(es[..|es| - 1]), es[|es| - 1];
      NothingLostOrReordered(es[..|es| - 1]);
      match e
      case Queue(msg) =>
        var part := Taken(msg, before.pending);
        FlattenSnoc(before.taken, part);
        assert before.sent + (before.pending + part) == before.sent + before.pending + part;
      case Write(ok) =>
        if ok { assert before.sent + before.pending + "" == before.sent + before.pending; }
    }
  }

  /** A write that succeeds leaves nothing pending and everything taken so far sent; one that fails changes nothing. */
  lemma SuccessSendsAll(es: seq<Event>)
    ensures var o, sent, failed := Run(es), Run(es + [Write(true)]), Run(es + [Write(false)]);
            && sent.pending == "" && sent.sent == Flatten(o.taken) && sent.taken == o.taken && failed == o
  {
    NothingLostOrReordered(es);
    assert (es + [Write(true)])[..|es|] == es && (es + [Write(false)])[..|es|] == es;
  }

  /** A message is cut only by filling the buffer to the last byte. */
  lemma CutOnlyWhenFull(es: seq<Event>, msg: string)
    ensures var o := Run(es + [Queue(msg)]);
            o.taken[|o.taken| - 1] != msg ==> |o.pending| == 16384
  {
    NothingLostOrReordered(es);
    assert (es + [Queue(msg)])[..|es|] == es;
  }

  /** The whole of every message gets through exactly when none of them met a buffer without room for it. */
  lemma {:induction false} WholeMessagesExactlyWhen(es: seq<Event>)
    ensures var o := Run(es);
            && |Flatten(o.taken)| <= |Flatten(Messages(es))|
            && (NeverCut(es) <==> o.sent + o.pending == Flatten(Messages(es)))
  {
    NothingLostOrReordered(es);
    if es != [] {
      var init, e := es[..|es| - 1], es[|es| - 1];
      WholeMessagesExactlyWhen(init);
      NothingLostOrReordered(init);
      if e.Queue? {
        var part := Taken(e.msg, Run(init).pending);
        FlattenSnoc(Run(init).taken, part);
        FlattenSnoc(Messages(init), e.msg);
        if part == e.msg && |Flatten(Run(init).taken)| == |Flatten(Messages(init))| {
          SameFront(Flatten(Run(init).taken), Flatten(Messages(init)), e.msg);
        }
      }
    }
  }

  lemma SameFront(a: string, b: string, c: string)
    requires |a| == |b|
    ensures a + c == b + c <==> a == b
  {
    assert (a + c)[..|a|] == a && (b + c)[..|b|] == b;
  }

  class OutBuffer {
    const buf: array<char>
    var len: nat
    ghost var events: seq<Event>

    ghost predicate Valid()
      reads this, buf
    {
      buf.Length == OUT_CAP && len <= OUT_CAP && buf[..len] == Run(events).pending
    }

    constructor ()
      ensures Valid() && events == [] && fresh(buf)
    {
      buf := new char[OUT_CAP](_ => '\0');
      len, events := 0, [];
    }

    /** `hg_session_queue`: copy what fits. */
    method SessionQueue(msg: string)
      requires Valid()
      modifies this`len, this`events, buf
      ensures Valid() && events == old(events) + [Queue(msg)]
    {
      var n := |msg|;
      if n > OUT_CAP - len {
        n := OUT_CAP - len;
      }
      ghost var before := buf[..len];
      forall k | 0 <= k < n { buf[len + k] := msg[k]; }
      assert buf[..len + n] == before + msg[..n];
      assert msg[..n] == Taken(msg, before) by { if n == |msg| { assert msg[..n] == msg; } }
      len := len + n;
      assert (events + [Queue(msg)])[..|events|] == events;
      events := events + [Queue(msg)];
    }

    /** The writable branch: hand over the whole buffer, and empty it only if all of it was sent. */
    method Writable(ok: bool) returns (out: string)
      requires Valid()
      modifies this`len, this`events
      ensures Valid() && events == old(events) + [Write(ok)]
      ensures Run(events).sent == Run(old(events)).sent + out
    {
      out := "";
      assert (events + [Write(ok)])[..|events|] == events;
      if len > 0 && ok {
        out := buf[..len];
        len := 0;
      }
      events := events + [Write(ok)];
    }
  }
}
