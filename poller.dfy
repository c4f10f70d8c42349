/** The Poller of poller.cpp: a queue of the read-query opcodes sent to the
    jrk, drained in send order as 2-byte replies arrive, and a poll loop
    guarded by the `cancelled` flag. The device channel is abstracted: what
    `write` accepts and what `read` and `poll` return are inputs. */
module JrkPoller {
  import opened Wrappers
  import opened Text
  import opened JrkProtocol

  // ---------------------------------------------------------------------
  // Hex rendering (Poller::HexOutput)
  // ---------------------------------------------------------------------

  /** Lower-case hex digit, as `std::hex` prints it on a stream whose other
      format flags are the defaults. */
  function HexDigit(d: nat): (c: char)
    requires d < 16
  {
    if d < 10 then DigitChar(d) else (('a' as int) + d - 10) as char
  }

  function HexDigitValue(c: char): (r: Option<nat>)
    ensures r.Some? ==> r.value < 16 && HexDigit(r.value) == c
  {
    if IsDigit(c) then Some(DigitValue(c))
    else if 'a' <= c <= 'f' then Some((c as int) - ('a' as int) + 10)
    else None
  }

  lemma HexDigitRoundTrip(d: nat)
    requires d < 16
    ensures HexDigitValue(HexDigit(d)) == Some(d)
  {
  }

  /** One byte as `setfill('0') << setw(2) << hex`: two digits, high first. */
  function HexByte(b: Byte): (s: string)
    ensures |s| == 2
  {
    [HexDigit(HighNibble(b)), HexDigit(LowNibble(b))]
  }

  /** What HexOutput appends to the stream for `data`. */
  function HexString(data: seq<Byte>): (s: string)
    ensures |s| == 2 * |data|
    decreases |data|
  {
    if data == [] then [] else HexString(data[..|data| - 1]) + HexByte(data[|data| - 1])
  }

  /** Reads a hex rendering back; `None` for an odd length or a non-hex digit. */
  function ParseHex(s: string): (r: Option<seq<Byte>>)
    decreases |s|
  {
    if |s| == 0 then Some([])
    else if |s| == 1 then None
    else
      var init, hi, lo := ParseHex(s[..|s| - 2]), HexDigitValue(s[|s| - 2]), HexDigitValue(s[|s| - 1]);
      if init.Some? && hi.Some? && lo.Some? then Some(init.value + [ByteOf(hi.value, lo.value)])
      else None
  }

  /** The byte whose high and low hex digits are `hi` and `lo`. */
  function ByteOf(hi: nat, lo: nat): (b: Byte)
    requires hi < 16 && lo < 16
    ensures HighNibble(b) == hi && LowNibble(b) == lo
  {
    hi * 16 + lo
  }

  lemma ParseHexStep(s: string)
    requires |s| >= 2 && ParseHex(s[..|s| - 2]).Some?
    requires HexDigitValue(s[|s| - 2]).Some? && HexDigitValue(s[|s| - 1]).Some?
    ensures ParseHex(s) == Some(ParseHex(s[..|s| - 2]).value +
                                [ByteOf(HexDigitValue(s[|s| - 2]).value, HexDigitValue(s[|s| - 1]).value)])
  {
  }

  /** Reading one more rendered byte appends that byte. */
  lemma ParseHexAppend(t: string, b: Byte)
    requires ParseHex(t).Some?
    ensures ParseHex(t + HexByte(b)) == Some(ParseHex(t).value + [b])
  {
    var u := t + HexByte(b);
    var hi, lo := HighNibble(b), LowNibble(b);
    assert u[..|u| - 2] == t;
    assert u[|u| - 2] == HexDigit(hi) && u[|u| - 1] == HexDigit(lo);
    HexDigitRoundTrip(hi);
    HexDigitRoundTrip(lo);
    ParseHexStep(u);
    assert ByteOf(hi, lo) == b;
  }

  /** Reading HexOutput's text back gives the bytes that were written. */
  lemma {:induction false} ParseHexOfHexString(data: seq<Byte>)
    ensures ParseHex(HexString(data)) == Some(data)
    decreases |data|
  {
    if data != [] {
      var init, b := data[..|data| - 1], data[|data| - 1];
      ParseHexOfHexString(init);
      ParseHexAppend(HexString(init), b);
      assert init + [b] == data;
    }
  }

  /** Byte `i` of `data` is rendered at characters 2i and 2i+1, in order. */
  lemma {:induction false} HexStringAt(data: seq<Byte>, i: nat)
    requires i < |data|
    ensures HexString(data)[2 * i .. 2 * i + 2] == HexByte(data[i])
    decreases |data|
  {
    var init := data[..|data| - 1];
    if i < |data| - 1 {
      HexStringAt(init, i);
      assert HexString(data)[2 * i .. 2 * i + 2] == HexString(init)[2 * i .. 2 * i + 2];
    }
  }

  /** Poller::HexOutput: every byte of `data`, in order, as two zero-padded
      lower-case hex digits. */
  method HexOutput(data: seq<Byte>) returns (s: string)
    ensures s == HexString(data)
  {
    s := [];
    var i := 0;
    while i < |data|
      invariant 0 <= i <= |data|
      invariant s == HexString(data[..i])
    {
      assert data[..i + 1][..i] == data[..i];
      s := s + HexByte(data[i]);
      i := i + 1;
    }
    assert data[..i] == data;
  }

  // ---------------------------------------------------------------------
  // Draining replies (Poller::HandleUSB)
  // ---------------------------------------------------------------------

  /** How a drain ends: the `read` that did not return a full frame. Only
      EAGAIN counts as a clean end; `errno` stays 0 after end-of-file or a
      1-byte read, and 0 is not EAGAIN either. */
  datatype ReadStop =
    | WouldBlock          // -1 with errno EAGAIN: no more data for now
    | ReadFailed          // -1 with any other errno
    | EndOfFile           // 0 bytes read
    | ShortRead(b: Byte)  // 1 byte read; it is consumed and lost

  /** One line the poller writes to standard output or standard error. */
  datatype Message =
    | Report(reply: Reply)     // a reply decoded for the opcode it answers
    | NoOutstandingCommand     // "warning: no outstanding command for recv"
    | SerialReadError          // "error reading serial", then an exception
    | PollError                // "error polling"
    | BogonEvent               // "event on bogon fd"

  /** The lines written for a run of frames and the queue left behind. */
  datatype Drained = Drained(messages: seq<Message>, queue: seq<Byte>)

  /** One full frame received with `queue` outstanding: the head opcode is
      popped and decides the reading; with nothing outstanding a warning is
      written and the queue stays empty. */
  function Receive(queue: seq<Byte>, f: Frame): (d: Drained)
    ensures |d.messages| == 1
    ensures queue == [] <==> d.messages[0] == NoOutstandingCommand
    ensures queue == [] ==> d.queue == []
    ensures queue != [] ==> [queue[0]] + d.queue == queue
    ensures queue != [] ==> d.messages[0].Report? && Query(d.messages[0].reply) == queue[0]
  {
    if queue == [] then Drained([NoOutstandingCommand], [])
    else Drained([Report(Decode(queue[0], Word(f)))], queue[1..])
  }

  /** The frames of one drain cycle, each received in turn. */
  function Drain(queue: seq<Byte>, frames: seq<Frame>): (d: Drained)
    ensures |d.messages| == |frames|
    ensures SerialReadError !in d.messages
    decreases |frames|
  {
    if frames == [] then Drained([], queue)
    else
      var first := Receive(queue, frames[0]);
      var rest := Drain(first.queue, frames[1..]);
      Drained(first.messages + rest.messages, rest.queue)
  }

  function Min(a: nat, b: nat): nat {
    if a <= b then a else b
  }

  /** FIFO correlation: the i-th frame is decoded with the i-th queued
      opcode, every frame beyond the queue's length gets the warning, and
      exactly the answered opcodes leave the queue. */
  lemma {:induction false} DrainCorrelates(queue: seq<Byte>, frames: seq<Frame>)
    ensures |Drain(queue, frames).messages| == |frames|
    ensures forall i :: 0 <= i < |frames| ==>
              Drain(queue, frames).messages[i] ==
                (if i < |queue| then Report(Decode(queue[i], Word(frames[i])))
                 else NoOutstandingCommand)
    ensures Drain(queue, frames).queue == queue[Min(|frames|, |queue|)..]
    decreases |frames|
  {
    if frames != [] {
      var first := Receive(queue, frames[0]);
      DrainCorrelates(first.queue, frames[1..]);
      var d := Drain(queue, frames);
      forall i | 0 <= i < |frames|
        ensures d.messages[i] ==
                  (if i < |queue| then Report(Decode(queue[i], Word(frames[i])))
                   else NoOutstandingCommand)
      {
        if i > 0 {
          assert d.messages[i] == Drain(first.queue, frames[1..]).messages[i - 1];
          if queue != [] && i < |queue| {
            assert first.queue[i - 1] == queue[i];
          }
        }
      }
      if queue != [] {
        assert queue[1..][Min(|frames| - 1, |queue| - 1)..] == queue[Min(|frames|, |queue|)..];
      }
    }
  }

  lemma DrainStep(queue: seq<Byte>, frames: seq<Frame>, i: nat)
    requires i < |frames|
    ensures var r := Receive(queue, frames[i]);
            var rest := Drain(r.queue, frames[i + 1..]);
            Drain(queue, frames[i..]) == Drained(r.messages + rest.messages, rest.queue)
  {
    assert frames[i..][0] == frames[i] && frames[i..][1..] == frames[i + 1..];
  }

  /** After the first `i` frames of a drain from `q0`, `messages` have been
      written and `queue` is left, and the rest of the drain continues from
      there. */
  predicate DrainedSoFar(q0: seq<Byte>, frames: seq<Frame>, i: nat, messages: seq<Message>, queue: seq<Byte>)
    requires i <= |frames|
  {
    var rest := Drain(queue, frames[i..]);
    Drain(q0, frames) == Drained(messages + rest.messages, rest.queue)
  }

  lemma DrainedSoFarStart(q0: seq<Byte>, frames: seq<Frame>)
    ensures DrainedSoFar(q0, frames, 0, [], q0)
  {
    assert frames[0..] == frames;
  }

  lemma DrainedSoFarStep(q0: seq<Byte>, frames: seq<Frame>, i: nat, messages: seq<Message>, queue: seq<Byte>)
    requires i < |frames| && DrainedSoFar(q0, frames, i, messages, queue)
    ensures var r := Receive(queue, frames[i]);
            DrainedSoFar(q0, frames, i + 1, messages + r.messages, r.queue)
  {
    DrainStep(queue, frames, i);
    var r := Receive(queue, frames[i]);
    var rest := Drain(r.queue, frames[i + 1..]);
    assert messages + (r.messages + rest.messages) == (messages + r.messages) + rest.messages;
  }

  lemma DrainedSoFarEnd(q0: seq<Byte>, frames: seq<Frame>, messages: seq<Message>, queue: seq<Byte>)
    requires DrainedSoFar(q0, frames, |frames|, messages, queue)
    ensures Drain(q0, frames) == Drained(messages, queue)
  {
    assert frames[|frames|..] == [];
    assert messages + [] == messages;
  }

  /** DrainCorrelates, for a queue that is the unanswered tail of a log of
      everything sent. */
  lemma DrainFromLog(queue: seq<Byte>, frames: seq<Frame>, log: seq<Byte>, answered: nat)
    requires answered <= |log| && log[answered..] == queue
    ensures |Drain(queue, frames).queue| == |queue| - Min(|frames|, |queue|)
    ensures forall j :: 0 <= j < Min(|frames|, |queue|) ==>
              Drain(queue, frames).messages[j] == Report(Decode(log[answered + j], Word(frames[j])))
  {
    DrainCorrelates(queue, frames);
  }

  /** N sends followed by N frames: the i-th frame is decoded as the answer
      to the i-th send, and the queue ends empty. */
  lemma FifoCorrelation(sent: seq<Byte>, frames: seq<Frame>)
    requires |frames| == |sent|
    ensures Drain(sent, frames).queue == []
    ensures |Drain(sent, frames).messages| == |frames|
    ensures forall i :: 0 <= i < |frames| ==>
              Drain(sent, frames).messages[i].Report? &&
              Query(Drain(sent, frames).messages[i].reply) == sent[i] &&
              Drain(sent, frames).messages[i].reply == Decode(sent[i], Word(frames[i]))
  {
    DrainCorrelates(sent, frames);
  }

  /** A target query and then a feedback query, answered by the words 0x0010
      and 0x00ff, report target 16 and then feedback 255. */
  lemma TargetThenFeedback()
    ensures Drain([ReadTarget, ReadFeedback], [Frame(0x10, 0), Frame(0xff, 0)]) ==
            Drained([Report(Target(16)), Report(Feedback(255))], [])
  {
    var d := Drain([ReadTarget, ReadFeedback], [Frame(0x10, 0), Frame(0xff, 0)]);
    FifoCorrelation([ReadTarget, ReadFeedback], [Frame(0x10, 0), Frame(0xff, 0)]);
    assert d.messages == [d.messages[0], d.messages[1]];
  }

  /** Frames arriving with nothing outstanding each give one warning, and the
      queue stays empty. */
  lemma DrainEmptyQueue(frames: seq<Frame>)
    ensures Drain([], frames).queue == []
    ensures forall i :: 0 <= i < |frames| ==> Drain([], frames).messages[i] == NoOutstandingCommand
  {
    DrainCorrelates([], frames);
  }

  /** Two drain cycles in a row decode as one drain of all their frames, so
      correlation carries across wake-ups. */
  lemma {:induction false} DrainAppend(queue: seq<Byte>, a: seq<Frame>, b: seq<Frame>)
    ensures var da := Drain(queue, a);
            var db := Drain(da.queue, b);
            Drain(queue, a + b) == Drained(da.messages + db.messages, db.queue)
    decreases |a|
  {
    if a == [] {
      assert a + b == b;
    } else {
      var first := Receive(queue, a[0]);
      DrainAppend(first.queue, a[1..], b);
      var da' := Drain(first.queue, a[1..]);
      var db := Drain(da'.queue, b);
      assert (a + b)[0] == a[0] && (a + b)[1..] == a[1..] + b;
      assert Drain(queue, a + b) == Drained(first.messages + (da'.messages + db.messages), db.queue);
      assert Drain(queue, a) == Drained(first.messages + da'.messages, da'.queue);
      assert first.messages + (da'.messages + db.messages) == (first.messages + da'.messages) + db.messages;
    }
  }

  // ---------------------------------------------------------------------
  // The poll loop (Poller::Poll), over an abstract sequence of events
  // ---------------------------------------------------------------------

  /** What one return from `poll()` brings, or the loop check that finds
      `cancelled` set. */
  datatype PollEvent =
    | DeviceReadable(frames: seq<Frame>, stop: ReadStop)  // devfd ready: HandleUSB
    | OtherFdEvent                                        // revents on the unused second pollfd
    | PollFailed                                          // poll() returned < 0
    | StopRequested                                       // the check at line 170 finds `cancelled` set

  datatype PollOutcome =
    | Stopped          // the loop saw `cancelled` and returned
    | Aborted          // HandleUSB threw out of the loop
    | EventsExhausted  // still running when the modelled events ran out

  datatype PollRun = PollRun(messages: seq<Message>, queue: seq<Byte>, outcome: PollOutcome)

  function Prepend(m: seq<Message>, r: PollRun): PollRun {
    PollRun(m + r.messages, r.queue, r.outcome)
  }

  /** The poll loop started (not yet cancelled) with `queue` outstanding. */
  function RunEvents(queue: seq<Byte>, events: seq<PollEvent>): (r: PollRun)
    ensures r.outcome == Stopped ==> StopRequested in events
    ensures r.outcome == EventsExhausted ==> StopRequested !in events
    decreases |events|
  {
    if events == [] then PollRun([], queue, EventsExhausted)
    else
      match events[0]
      case StopRequested => PollRun([], queue, Stopped)
      case PollFailed => Prepend([PollError], RunEvents(queue, events[1..]))
      case OtherFdEvent => Prepend([BogonEvent], RunEvents(queue, events[1..]))
      case DeviceReadable(frames, stop) =>
        var d := Drain(queue, frames);
        if stop.WouldBlock? then Prepend(d.messages, RunEvents(d.queue, events[1..]))
        else PollRun(d.messages + [SerialReadError], d.queue, Aborted)
  }

  /** A run aborts exactly when its last message is the read error, and
      only on a wake-up whose drain ended on something other than EAGAIN. */
  lemma {:induction false} RunEventsAborted(queue: seq<Byte>, events: seq<PollEvent>)
    ensures var r := RunEvents(queue, events);
            r.outcome == Aborted <==> |r.messages| >= 1 && r.messages[|r.messages| - 1] == SerialReadError
    ensures RunEvents(queue, events).outcome == Aborted ==>
              exists i :: 0 <= i < |events| && events[i].DeviceReadable? && !events[i].stop.WouldBlock?
    decreases |events|
  {
    if events != [] {
      var r := RunEvents(queue, events);
      match events[0]
      case StopRequested =>
      case DeviceReadable(frames, stop) =>
        var d := Drain(queue, frames);
        if stop.WouldBlock? {
          RunEventsTail(d.queue, events, d.messages);
        } else {
          assert r.messages[|r.messages| - 1] == SerialReadError;
          assert events[0].DeviceReadable?;
        }
      case PollFailed =>
        RunEventsTail(queue, events, [PollError]);
      case OtherFdEvent =>
        RunEventsTail(queue, events, [BogonEvent]);
    }
  }

  /** The inductive step of `RunEventsAborted`: a run that continues after
      messages `m` free of read errors. */
  lemma {:induction false} RunEventsTail(queue: seq<Byte>, events: seq<PollEvent>, m: seq<Message>)
    requires events != [] && SerialReadError !in m
    ensures var r, rest := Prepend(m, RunEvents(queue, events[1..])), RunEvents(queue, events[1..]);
            && (r.outcome == Aborted <==> |r.messages| >= 1 && r.messages[|r.messages| - 1] == SerialReadError)
            && (r.outcome == Aborted ==>
                  exists i :: 0 <= i < |events| && events[i].DeviceReadable? && !events[i].stop.WouldBlock?)
    decreases |events|, 0
  {
    var rest := RunEvents(queue, events[1..]);
    RunEventsAborted(queue, events[1..]);
    if rest.messages == [] {
      assert Prepend(m, rest).messages == m;
      if |m| >= 1 {
        assert m[|m| - 1] in m;
      }
    } else {
      assert Prepend(m, rest).messages[|m + rest.messages| - 1] == rest.messages[|rest.messages| - 1];
    }
    if rest.outcome == Aborted {
      var i :| 0 <= i < |events[1..]| && events[1..][i].DeviceReadable? && !events[1..][i].stop.WouldBlock?;
      assert events[i + 1] == events[1..][i];
    }
  }

  /** Proof helper for `Poll`'s loop: `RunEvents` unfolded at event `i`. */
  lemma RunEventsStep(queue: seq<Byte>, events: seq<PollEvent>, i: nat)
    requires i < |events|
    ensures var e, rest := events[i], events[i + 1..];
            var r := RunEvents(queue, events[i..]);
            && (e.StopRequested? ==> r == PollRun([], queue, Stopped))
            && (e.PollFailed? ==> r == Prepend([PollError], RunEvents(queue, rest)))
            && (e.OtherFdEvent? ==> r == Prepend([BogonEvent], RunEvents(queue, rest)))
            && (e.DeviceReadable? && e.stop.WouldBlock? ==>
                  r == Prepend(Drain(queue, e.frames).messages, RunEvents(Drain(queue, e.frames).queue, rest)))
            && (e.DeviceReadable? && !e.stop.WouldBlock? ==>
                  r == PollRun(Drain(queue, e.frames).messages + [SerialReadError], Drain(queue, e.frames).queue, Aborted))
  {
    assert events[i..][0] == events[i] && events[i..][1..] == events[i + 1..];
  }

  /** Once the loop's check finds `cancelled` set, no later event is looked
      at. */
  lemma {:induction false} NothingAfterStop(queue: seq<Byte>, pre: seq<PollEvent>, post: seq<PollEvent>)
    ensures RunEvents(queue, pre + [StopRequested] + post) == RunEvents(queue, pre + [StopRequested])
    decreases |pre|
  {
    var long, short := pre + [StopRequested] + post, pre + [StopRequested];
    assert long[0] == short[0];
    if pre != [] {
      assert long[1..] == pre[1..] + [StopRequested] + post;
      assert short[1..] == pre[1..] + [StopRequested];
      match pre[0]
      case StopRequested =>
      case PollFailed => NothingAfterStop(queue, pre[1..], post);
      case OtherFdEvent => NothingAfterStop(queue, pre[1..], post);
      case DeviceReadable(frames, stop) =>
        NothingAfterStop(Drain(queue, frames).queue, pre[1..], post);
    }
  }

  /** Drain cycles that each end cleanly correlate replies exactly as one
      drain of all their frames. */
  lemma TwoWakeUps(queue: seq<Byte>, a: seq<Frame>, b: seq<Frame>)
    ensures var r := RunEvents(queue, [DeviceReadable(a, WouldBlock), DeviceReadable(b, WouldBlock)]);
            r.messages == Drain(queue, a + b).messages &&
            r.queue == Drain(queue, a + b).queue &&
            r.outcome == EventsExhausted
  {
    DrainAppend(queue, a, b);
    var events := [DeviceReadable(a, WouldBlock), DeviceReadable(b, WouldBlock)];
    var da := Drain(queue, a);
    var db := Drain(da.queue, b);
    assert events[1..] == [DeviceReadable(b, WouldBlock)];
    assert events[1..][1..] == [];
    assert RunEvents(db.queue, []) == PollRun([], db.queue, EventsExhausted);
    assert RunEvents(da.queue, events[1..]) == Prepend(db.messages, RunEvents(db.queue, []));
    assert RunEvents(queue, events) == Prepend(da.messages, RunEvents(da.queue, events[1..]));
  }

  // ---------------------------------------------------------------------
  // The Poller object
  // ---------------------------------------------------------------------

  class Poller {
    /** sent_cmds: opcodes awaiting a reply, oldest first. */
    var sentCmds: seq<Byte>
    /** The atomic `cancelled` flag. */
    var cancelled: bool
    /** Every byte the device channel has accepted from `write`. */
    var written: seq<Byte>
    /** Every opcode ever queued, and how many of them have been answered. */
    ghost var sentLog: seq<Byte>
    ghost var answered: nat

    /** The queue holds exactly the sent opcodes not yet answered, in order. */
    ghost predicate Valid()
      reads this
    {
      answered <= |sentLog| && sentCmds == sentLog[answered..]
    }

    /** Construction once the device is open (poller.cpp, lines 40-45). */
    constructor ()
      ensures Valid()
      ensures sentCmds == [] && !cancelled && written == []
      ensures sentLog == [] && answered == 0
    {
      sentCmds := [];
      cancelled := false;
      written := [];
      sentLog := [];
      answered := 0;
    }

    /** Stores the flag the poll loop checks before each `poll()`. It does
        not wake a `poll()` already blocked; calling it again changes
        nothing. */
    method StopPolling()
      modifies this`cancelled
      ensures cancelled
    {
      cancelled := true;
    }

    /** Writes the one-byte command; `accepted` is whether `write` took the
        byte. A refused write is only logged (`ok` is false). */
    method WriteJRKCommand(cmd: int, accepted: bool) returns (ok: bool)
      requires 0 <= cmd < 0x100
      modifies this`written
      ensures ok == accepted
      ensures written == old(written) + (if accepted then [cmd as Byte] else [])
    {
      var b := CommandByte(cmd);
      if accepted {
        written := written + [b];
      }
      ok := accepted;
    }

    /** Writes the opcode and queues it for correlation, whether or not the
        write succeeded. */
    method SendJRKReadCommand(cmd: int, accepted: bool) returns (ok: bool)
      requires Valid()
      requires 0 <= cmd < 0x100
      modifies this`written, this`sentCmds, this`sentLog
      ensures Valid()
      ensures sentCmds == old(sentCmds) + [cmd as Byte]
      ensures sentLog == old(sentLog) + [cmd as Byte]
      ensures ok == accepted
      ensures written == old(written) + (if accepted then [cmd as Byte] else [])
    {
      ok := WriteJRKCommand(cmd, accepted);
      sentCmds := sentCmds + [cmd as Byte];
      sentLog := sentLog + [cmd as Byte];
    }

    method ReadJRKInput(accepted: bool) returns (ok: bool)
      requires Valid()
      modifies this`written, this`sentCmds, this`sentLog
      ensures Valid()
      ensures sentCmds == old(sentCmds) + [ReadInput] && sentLog == old(sentLog) + [ReadInput]
      ensures ok == accepted
      ensures written == old(written) + (if accepted then [ReadInput] else [])
    {
      ok := SendJRKReadCommand(ReadInput, accepted);
    }

    method ReadJRKFeedback(accepted: bool) returns (ok: bool)
      requires Valid()
      modifies this`written, this`sentCmds, this`sentLog
      ensures Valid()
      ensures sentCmds == old(sentCmds) + [ReadFeedback] && sentLog == old(sentLog) + [ReadFeedback]
      ensures ok == accepted
      ensures written == old(written) + (if accepted then [ReadFeedback] else [])
    {
      ok := SendJRKReadCommand(ReadFeedback, accepted);
    }

    method ReadJRKTarget(accepted: bool) returns (ok: bool)
      requires Valid()
      modifies this`written, this`sentCmds, this`sentLog
      ensures Valid()
      ensures sentCmds == old(sentCmds) + [ReadTarget] && sentLog == old(sentLog) + [ReadTarget]
      ensures ok == accepted
      ensures written == old(written) + (if accepted then [ReadTarget] else [])
    {
      ok := SendJRKReadCommand(ReadTarget, accepted);
    }

    method ReadJRKErrors(accepted: bool) returns (ok: bool)
      requires Valid()
      modifies this`written, this`sentCmds, this`sentLog
      ensures Valid()
      ensures sentCmds == old(sentCmds) + [ReadErrors] && sentLog == old(sentLog) + [ReadErrors]
      ensures ok == accepted
      ensures written == old(written) + (if accepted then [ReadErrors] else [])
    {
      ok := SendJRKReadCommand(ReadErrors, accepted);
    }

    /** The read loop of HandleUSB: each full frame pops the oldest
        opcode and is reported as that opcode's reading. */
    method ReadFrames(frames: seq<Frame>) returns (messages: seq<Message>)
      requires Valid()
      modifies this`sentCmds, this`answered
      ensures Valid()
      ensures messages == Drain(old(sentCmds), frames).messages
      ensures sentCmds == Drain(old(sentCmds), frames).queue
      ensures old(answered) <= answered && sentLog[old(answered)..] == old(sentCmds)
    {
      ghost var q0 := sentCmds;
      messages := [];
      DrainedSoFarStart(q0, frames);
      var i := 0;
      while i < |frames|
        invariant 0 <= i <= |frames|
        invariant Valid() && old(answered) <= answered
        invariant sentLog[old(answered)..] == q0
        invariant DrainedSoFar(q0, frames, i, messages, sentCmds)
      {
        var f := frames[i];
        DrainedSoFarStep(q0, frames, i, messages, sentCmds);
        ghost var r := Receive(sentCmds, f);
        var w := Word(f);
        if sentCmds == [] {
          messages := messages + [NoOutstandingCommand];
        } else {
          var expcmd := sentCmds[0];
          assert sentLog[answered + 1..] == sentLog[answered..][1..];
          sentCmds := sentCmds[1..];
          answered := answered + 1;
          messages := messages + [Report(Decode(expcmd, w))];
        }
        i := i + 1;
      }
      DrainedSoFarEnd(q0, frames, messages, sentCmds);
    }

    /** Reads full frames until `stop`; each pops the oldest opcode and is
        reported as that opcode's reading. `ok` is false when the drain ended
        on anything but EAGAIN, where the source throws. */
    method HandleUSB(frames: seq<Frame>, stop: ReadStop) returns (messages: seq<Message>, ok: bool)
      requires Valid()
      modifies this`sentCmds, this`answered
      ensures Valid()
      ensures ok <==> stop == WouldBlock
      ensures messages == Drain(old(sentCmds), frames).messages + (if ok then [] else [SerialReadError])
      ensures sentCmds == Drain(old(sentCmds), frames).queue
      ensures answered == old(answered) + Min(|frames|, |old(sentCmds)|)
      ensures forall j :: 0 <= j < Min(|frames|, |old(sentCmds)|) ==>
                messages[j] == Report(Decode(sentLog[old(answered) + j], Word(frames[j])))
    {
      messages := ReadFrames(frames);
      DrainFromLog(old(sentCmds), frames, sentLog, old(answered));
      ok := stop.WouldBlock?;
      if !ok {
        messages := messages + [SerialReadError];
      }
    }

    /** Runs until the loop's check finds `cancelled` set or HandleUSB throws;
        `events` are the successive returns of `poll()`, and `StopRequested`
        marks the point where the check first sees the flag that
        `StopPolling` stored. */
    method Poll(events: seq<PollEvent>) returns (messages: seq<Message>, outcome: PollOutcome)
      requires Valid()
      modifies this`sentCmds, this`answered, this`cancelled
      ensures Valid() && sentLog == old(sentLog)
      ensures old(cancelled) ==> messages == [] && outcome == Stopped && sentCmds == old(sentCmds)
      ensures !old(cancelled) ==> RunEvents(old(sentCmds), events) == PollRun(messages, sentCmds, outcome)
      ensures cancelled <==> outcome == Stopped
    {
      ghost var q0 := sentCmds;
      messages := [];
      var i := 0;
      while !cancelled && i < |events|
        invariant 0 <= i <= |events|
        invariant Valid() && sentLog == old(sentLog)
        invariant old(cancelled) ==> cancelled && i == 0 && sentCmds == q0 && messages == []
        invariant !old(cancelled) && !cancelled ==>
                    RunEvents(q0, events) == Prepend(messages, RunEvents(sentCmds, events[i..]))
        invariant !old(cancelled) && cancelled ==>
                    RunEvents(q0, events) == PollRun(messages, sentCmds, Stopped)
      {
        RunEventsStep(sentCmds, events, i);
        match events[i] {
          case StopRequested =>
            StopPolling();
          case PollFailed =>
            messages := messages + [PollError];
          case OtherFdEvent =>
            messages := messages + [BogonEvent];
          case DeviceReadable(frames, stop) =>
            var drained, ok := HandleUSB(frames, stop);
            messages := messages + drained;
            if !ok {
              outcome := Aborted;
              return;
            }
        }
        i := i + 1;
      }
      if cancelled {
        outcome := Stopped;
      } else {
        assert events[i..] == [];
        outcome := EventsExhausted;
      }
    }
  }
}
