/** Reassembly of fragmented text messages: the receive branch of `ffi/lws_shim.c`. */
module Reassembly {
  const RX_CAP := 256

  datatype Frame = Frame(data: string, binary: bool, last: bool)

  /** What has been collected of the current message, or that it has grown too long. */
  datatype Rx = Partial(text: string) | Overflowed

  datatype Verdict = Silence | Notice | Deliver(line: string)

  function Collected(r: Rx, data: string): Rx {
    match r
    case Overflowed => Overflowed
    case Partial(text) => if |text| + |data| > RX_CAP - 1 then Overflowed else Partial(text + data)
  }

  function Judged(r: Rx): Verdict {
    match r
    case Overflowed => Notice
    case Partial(text) => if text == "" then Silence else Deliver(text)
  }

  /** One frame: the state after it, and what the engine or the client is told. */
  function Step(r: Rx, f: Frame): (Rx, Verdict) {
    if f.binary then (Partial(""), Silence)
    else if f.last then (Partial(""), Judged(Collected(r, f.data)))
    else (Collected(r, f.data), Silence)
  }

  /** Everything said while the frames arrive, silences left out. */
  function Told(r: Rx, fs: seq<Frame>): seq<Verdict>
    decreases |fs|
  {
    if fs == [] then []
    else
      var (r', v) := Step(r, fs[0]);
      (if v == Silence then [] else [v]) + Told(r', fs[1..])
  }

  function After(r: Rx, fs: seq<Frame>): Rx
    decreases |fs|
  {
    if fs == [] then r else After(Step(r, fs[0]).0, fs[1..])
  }

  function Joined(chunks: seq<string>): string {
    if chunks == [] then "" else chunks[0] + Joined(chunks[1..])
  }

  /** A text message cut into the given chunks. */
  function Frames(chunks: seq<string>): seq<Frame>
    requires chunks != []
  {
    if |chunks| == 1 then [Frame(chunks[0], false, true)]
    else [Frame(chunks[0], false, false)] + Frames(chunks[1..])
  }

  /** What the whole message deserves, however it was cut: delivered if it has 1 to 255 bytes, ignored if it has
      none, and one notice otherwise. */
  function Deserved(message: string): seq<Verdict> {
    if message == "" then [] else if |message| < RX_CAP then [Deliver(message)] else [Notice]
  }

  lemma {:induction false} MessageFrom(r: Rx, chunks: seq<string>)
    requires chunks != [] && (r.Partial? ==> |r.text| < RX_CAP)
    ensures After(r, Frames(chunks)) == Partial("")
    ensures Told(r, Frames(chunks)) ==
            if r.Partial? then Deserved(r.text + Joined(chunks)) else [Notice]
    decreases |chunks|
  {
    if |chunks| == 1 {
      assert Joined(chunks) == chunks[0] by { assert chunks[1..] == []; assert chunks[0] + "" == chunks[0]; }
    } else {
      var fs := Frames(chunks);
      assert fs[1..] == Frames(chunks[1..]);
      var r' := Collected(r, chunks[0]);
      MessageFrom(r', chunks[1..]);
      if r.Partial? {
        assert r.text + Joined(chunks) == (r.text + chunks[0]) + Joined(chunks[1..]);
      }
    }
  }

  /** However a message is cut into fragments, the engine gets what the whole message deserves and the buffer is
      empty again afterwards. */
  lemma FragmentsDoNotMatter(chunks: seq<string>)
    requires chunks != []
    ensures Told(Partial(""), Frames(chunks)) == Deserved(Joined(chunks))
    ensures 1 <= |Joined(chunks)| <= 255 <==> Told(Partial(""), Frames(chunks)) == [Deliver(Joined(chunks))]
    ensures |Joined(chunks)| > 255 <==> Told(Partial(""), Frames(chunks)) == [Notice]
    ensures After(Partial(""), Frames(chunks)) == Partial("")
  {
    MessageFrom(Partial(""), chunks);
    assert "" + Joined(chunks) == Joined(chunks);
  }

  function Stream(messages: seq<seq<string>>): seq<Frame>
    requires forall i :: 0 <= i < |messages| ==> messages[i] != []
  {
    if messages == [] then [] else Frames(messages[0]) + Stream(messages[1..])
  }

  function DeservedAll(messages: seq<seq<string>>): seq<Verdict> {
    if messages == [] then [] else Deserved(Joined(messages[0])) + DeservedAll(messages[1..])
  }

  lemma {:induction false} ToldSplit(r: Rx, a: seq<Frame>, b: seq<Frame>)
    ensures Told(r, a + b) == Told(r, a) + Told(After(r, a), b)
    decreases |a|
  {
    if a == [] {
      assert a + b == b;
    } else {
      assert (a + b)[1..] == a[1..] + b;
      ToldSplit(Step(r, a[0]).0, a[1..], b);
    }
  }

  /** A stream of messages, each cut as it may be: the verdicts come message by message, in order. */
  lemma {:induction false} EveryMessageGetsItsDue(messages: seq<seq<string>>)
    requires forall i :: 0 <= i < |messages| ==> messages[i] != []
    ensures Told(Partial(""), Stream(messages)) == DeservedAll(messages)
  {
    if messages != [] {
      FragmentsDoNotMatter(messages[0]);
      ToldSplit(Partial(""), Frames(messages[0]), Stream(messages[1..]));
      EveryMessageGetsItsDue(messages[1..]);
    }
  }

  /** A binary frame drops the partial message around it. */
  lemma BinaryDropsPartial(r: Rx, data: string, last: bool, after: seq<Frame>)
    ensures Told(r, [Frame(data, true, last)] + after) == Told(Partial(""), after)
  {
    assert ([Frame(data, true, last)] + after)[1..] == after;
  }

  class RxBuffer {
    const rx: array<char>
    /** Bytes collected, or -1 once the message is too long. */
    var rxLen: int

    ghost predicate Valid()
      reads this
    {
      rx.Length == RX_CAP && -1 <= rxLen < RX_CAP
    }

    ghost function View(): Rx
      requires Valid()
      reads this, rx
    {
      if rxLen < 0 then Overflowed else Partial(rx[..rxLen])
    }

    constructor ()
      ensures Valid() && View() == Partial("") && fresh(rx)
    {
      rx := new char[RX_CAP](_ => '\0');
      rxLen := 0;
    }

    /** `LWS_CALLBACK_RECEIVE`. */
    method Receive(f: Frame) returns (v: Verdict)
      requires Valid()
      modifies this, rx
      ensures Valid() && (View(), v) == Step(old(View()), f)
    {
      v := Silence;
      if f.binary {
        rxLen := 0;
        return;
      }
      if rxLen >= 0 {
        if rxLen + |f.data| > RX_CAP - 1 {
          rxLen := -1;
        } else {
          ghost var before := rx[..rxLen];
          forall k | 0 <= k < |f.data| { rx[rxLen + k] := f.data[k]; }
          rxLen := rxLen + |f.data|;
          assert rx[..rxLen] == before + f.data;
        }
      }
      if f.last {
        if rxLen < 0 {
          v := Notice;
        } else if rxLen > 0 {
          v := Deliver(rx[..rxLen]);
        }
        rxLen := 0;
      }
    }
  }
}
