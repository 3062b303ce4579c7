/** `WebSocket` (`src/lib.rs`): both halves on one stream, and the run they have made so far. */
module WebSockets {
  import opened Bytes
  import opened Errors
  import opened Frames
  import opened Parsing
  import opened Streams
  import opened Endpoints
  import opened Writing

  // ---------- What a call returns, as a function of the bytes ahead ----------

  ghost predicate AnswersWithClose(a: Reaction) {
    a.reply.Some? && a.reply.value.opcode.Close?
  }

  /** One pass of the read loop: the result if it is the last one, and whether the connection is closed after it. */
  datatype Pass = Pass(done: Option<Result<Frame, Error>>, closed: bool)

  ghost function ReadPass(cfg: ReadConfig, closed: bool, p: Parsed): Pass {
    var a := ReactTo(cfg, p);
    Pass(PassResult(closed, a.result), closed || AnswersWithClose(a))
  }

  function PassResult(closed: bool, result: Result<Option<Frame>, Error>): Option<Result<Frame, Error>> {
    match result
    case Failure(e) => Some(Failure(e))
    case Success(None) => None
    case Success(Some(g)) =>
      Some(if closed && !g.opcode.Close? then Failure(ConnectionClosed) else Success(g))
  }

  datatype Reading = Reading(result: Result<Frame, Error>, closed: bool, rest: seq<byte>)

  /** `WebSocket::read_frame` on a transport that does not fail. */
  ghost function Read(cfg: ReadConfig, limit: usize, closed: bool, input: seq<byte>): Reading
    decreases |input|
  {
    var p := Parse(input, limit);
    var t := ReadPass(cfg, closed, p);
    if t.done.Some? then Reading(t.done.value, t.closed, p.rest)
    else
      ParseProgress(input, limit);
      Read(cfg, limit, t.closed, p.rest)
  }

  /** A pass that is not the last one has taken at least a header off the front, so the loop ends. */
  lemma ReadOnce(cfg: ReadConfig, limit: usize, closed: bool, input: seq<byte>)
    ensures var p := Parse(input, limit);
            var t := ReadPass(cfg, closed, p);
            if t.done.Some? then Read(cfg, limit, closed, input) == Reading(t.done.value, t.closed, p.rest)
            else |p.rest| + 2 <= |input| && Read(cfg, limit, closed, input) == Read(cfg, limit, t.closed, p.rest)
  {
    ParseProgress(input, limit);
  }

  /** What a pass makes of a parse. */
  ghost predicate Passed(p: Parsed, cfg: ReadConfig, was: bool, done: Option<Result<Frame, Error>>, closed: bool,
                         left: seq<byte>)
  {
    left == p.rest && Pass(done, closed) == ReadPass(cfg, was, p)
  }

  /** What the loop will return from where it is now. */
  ghost predicate Underway(cfg: ReadConfig, limit: usize, goal: Reading, closed: bool, ahead: seq<byte>) {
    Read(cfg, limit, closed, ahead) == goal
  }

  lemma PassAdvances(cfg: ReadConfig, limit: usize, goal: Reading, closed: bool, ahead: seq<byte>,
                     done: Option<Result<Frame, Error>>, after: bool, left: seq<byte>)
    requires Underway(cfg, limit, goal, closed, ahead)
    requires Passed(Parse(ahead, limit), cfg, closed, done, after, left)
    ensures if done.Some? then goal == Reading(done.value, after, left)
            else Underway(cfg, limit, goal, after, left) && |left| < |ahead|
  {
    ReadOnce(cfg, limit, closed, ahead);
  }

  /** What a pass returns is a frame as the parser makes them. */
  lemma PassWellFormed(cfg: ReadConfig, closed: bool, input: seq<byte>, limit: usize)
    ensures var t := ReadPass(cfg, closed, Parse(input, limit));
            t.done.Some? && t.done.value.Success? ==> WellFormed(t.done.value.value, limit)
  {
    ParseProgress(input, limit);
  }

  // ---------- The history ----------

  /** `fs` are the frames at the front of `input`; `rest` is what follows them. */
  ghost predicate Took(input: seq<byte>, limit: usize, fs: seq<Frame>, rest: seq<byte>)
    decreases |fs|
  {
    if fs == [] then input == rest
    else exists mid :: Took(input, limit, fs[..|fs| - 1], mid) && Parse(mid, limit) == Got(fs[|fs| - 1], rest)
  }

  lemma TookOne(input: seq<byte>, limit: usize, fs: seq<Frame>, mid: seq<byte>, f: Frame, rest: seq<byte>)
    requires Took(input, limit, fs, mid) && Parse(mid, limit) == Got(f, rest)
    ensures Took(input, limit, fs + [f], rest)
  {
    hide Parse;
    assert (fs + [f])[..|fs + [f]| - 1] == fs;
  }

  /** What was taken came through the parser. */
  lemma {:induction false} TookWellFormed(input: seq<byte>, limit: usize, fs: seq<Frame>, rest: seq<byte>)
    requires Took(input, limit, fs, rest)
    ensures forall f :: f in fs ==> WellFormed(f, limit)
    decreases |fs|
  {
    if fs != [] {
      var mid :| Took(input, limit, fs[..|fs| - 1], mid) && Parse(mid, limit) == Got(fs[|fs| - 1], rest);
      hide Took, Parse, WellFormed;
      ParseProgress(mid, limit);
      TookWellFormed(input, limit, fs[..|fs| - 1], mid);
    }
  }

  function FramesIn(evs: seq<Event>): seq<Frame> {
    if evs == [] then [] else FramesIn(evs[..|evs| - 1]) + [evs[|evs| - 1].frame]
  }

  predicate AreReceipts(evs: seq<Event>, cfg: ReadConfig) {
    forall i :: 0 <= i < |evs| ==> evs[i].Receipt? && evs[i].cfg == cfg
  }

  /** `evs` are the receipts, in order, of the frames at the front of `input`. */
  ghost predicate TookAll(input: seq<byte>, limit: usize, cfg: ReadConfig, evs: seq<Event>, rest: seq<byte>) {
    AreReceipts(evs, cfg) && Took(input, limit, FramesIn(evs), rest)
  }

  /** One parse makes one receipt, if it finds a frame. */
  ghost predicate Receives(p: Parsed, cfg: ReadConfig, added: seq<Event>) {
    if p.Failed? then added == []
    else |added| == 1 && added[0].Receipt? && added[0].cfg == cfg && added[0].frame == p.frame
  }

  /** What a pass records and leaves ahead, and the flag after it, also if the reply could not be written. */
  ghost predicate Recorded(p: Parsed, cfg: ReadConfig, was: bool, added: seq<Event>, closed: bool, left: seq<byte>) {
    if added == [] then closed == was
    else p.Got? && Receives(p, cfg, added) && left == p.rest && closed == ReadPass(cfg, was, p).closed
  }

  lemma FramesInOne(p: Parsed, cfg: ReadConfig, was: bool, added: seq<Event>, closed: bool, left: seq<byte>)
    requires Recorded(p, cfg, was, added, closed, left)
    ensures FramesIn(added) == if added == [] then [] else [p.frame]
    ensures added != [] ==> p.Got?
    ensures closed == if added == [] then was else ReadPass(cfg, was, p).closed
  {
    hide ReadPass;
    if added != [] {
      assert added[..0] == [] && FramesIn([]) + [p.frame] == [p.frame];
    }
  }

  lemma FramesInMore(p: Parsed, cfg: ReadConfig, was: bool, evs: seq<Event>, added: seq<Event>, closed: bool,
                     left: seq<byte>)
    requires Recorded(p, cfg, was, added, closed, left)
    ensures FramesIn(evs + added) == FramesIn(evs) + FramesIn(added)
  {
    hide ReadPass;
    if added == [] {
      assert evs + added == evs && FramesIn(evs) + [] == FramesIn(evs);
    } else {
      FramesInOne(p, cfg, was, added, closed, left);
      assert (evs + added)[..|evs + added| - 1] == evs;
    }
  }

  lemma TookMore(input: seq<byte>, limit: usize, cfg: ReadConfig, evs: seq<Event>, mid: seq<byte>, was: bool,
                 added: seq<Event>, closed: bool, left: seq<byte>)
    requires TookAll(input, limit, cfg, evs, mid) && Recorded(Parse(mid, limit), cfg, was, added, closed, left)
    ensures TookAll(input, limit, cfg, evs + added, if added == [] then mid else left)
  {
    FramesInOne(Parse(mid, limit), cfg, was, added, closed, left);
    FramesInMore(Parse(mid, limit), cfg, was, evs, added, closed, left);
    ReceiptsMore(Parse(mid, limit), cfg, was, evs, added, closed, left);
    hide Parse, Took, FramesIn, AreReceipts, ReadPass;
    if added == [] {
      assert evs + added == evs;
    } else {
      TookOne(input, limit, FramesIn(evs), mid, added[0].frame, left);
    }
  }

  lemma ReceiptsMore(p: Parsed, cfg: ReadConfig, was: bool, evs: seq<Event>, added: seq<Event>, closed: bool,
                     left: seq<byte>)
    requires AreReceipts(evs, cfg) && Recorded(p, cfg, was, added, closed, left)
    ensures AreReceipts(evs + added, cfg)
  {
    hide ReadPass;
  }

  /** What an exchange makes of a parse. */
  ghost predicate Exchanged(p: Parsed, cfg: ReadConfig, was: bool, res: Result<Option<Frame>, Error>, closed: bool,
                            left: seq<byte>, added: seq<Event>)
  {
    var a := ReactTo(cfg, p);
    left == p.rest && res == a.result && closed == (was || AnswersWithClose(a)) && Receives(p, cfg, added)
  }

  /** The closed flag and the wire are those of the run `history`. */
  ghost predicate Reflects(closed: bool, wire: seq<byte>, base: seq<byte>, history: seq<Event>) {
    closed == RunAll(history).closed && wire == base + WireOf(RunAll(history).log)
  }

  /** The flag and the wire after a dressed frame was handed to the write half. */
  ghost predicate Wrote(closed: bool, wire: seq<byte>, f: Frame, room: nat, auto: bool, after: bool,
                        wireAfter: seq<byte>)
  {
    var one := Put(Endpoint(closed, []), f, room, auto).endpoint;
    after == one.closed && wireAfter == wire + WireOf(one.log)
  }

  lemma RunAppend(history: seq<Event>, ev: Event)
    ensures RunAll(history + [ev]) == Step(RunAll(history), ev)
  {
    assert (history + [ev])[..|history + [ev]| - 1] == history;
  }

  lemma ReflectsPut(closed: bool, wire: seq<byte>, base: seq<byte>, history: seq<Event>, ev: Event, f: Frame, room: nat,
                    auto: bool, after: bool, wireAfter: seq<byte>)
    requires Reflects(closed, wire, base, history)
    requires Step(RunAll(history), ev) == Put(RunAll(history), f, room, auto).endpoint
    requires Wrote(closed, wire, f, room, auto, after, wireAfter)
    ensures Reflects(after, wireAfter, base, history + [ev])
  {
    var e := RunAll(history);
    RunAppend(history, ev);
    WireOfPut(e, f, room, auto);
    Assoc(base, WireOf(e.log), WireOf(Put(Endpoint(closed, []), f, room, auto).endpoint.log));
  }

  /** A receipt that obliged no reply, or came when the connection was closed. */
  lemma ReflectsSilent(closed: bool, wire: seq<byte>, base: seq<byte>, history: seq<Event>, ev: Event)
    requires Reflects(closed, wire, base, history)
    requires ev.Receipt? && (Reply(ev).None? || closed)
    ensures Reflects(closed, wire, base, history + [ev])
  {
    RunAppend(history, ev);
  }

  lemma ReflectsReply(closed: bool, wire: seq<byte>, base: seq<byte>, history: seq<Event>, ev: Event, reply: Frame,
                      after: bool, wireAfter: seq<byte>)
    requires Reflects(closed, wire, base, history)
    requires ev.Receipt? && Reply(ev) == Some(reply) && !closed
    requires Wrote(closed, wire, Dressed(ev.w, reply, ev.key), ev.room, true, after, wireAfter)
    ensures Reflects(after, wireAfter, base, history + [ev])
    ensures after == reply.opcode.Close?
  {
    ReflectsPut(closed, wire, base, history, ev, Dressed(ev.w, reply, ev.key), ev.room, true, after, wireAfter);
  }

  class WebSocket {
    const stream: Stream
    const readHalf: ReadHalf
    const writeHalf: WriteHalf
    /** What was on the wire when the handshake ended. */
    ghost const base: seq<byte>
    /** Every frame written and every frame received since. */
    ghost var history: seq<Event>

    /** `after_handshake` */
    constructor (stream: Stream, role: Role)
      ensures Valid() && history == [] && this.stream == stream && base == stream.wire
      ensures fresh(readHalf) && fresh(writeHalf)
      ensures !writeHalf.closed && writeHalf.Config() == WriteConfig(role, true)
      ensures readHalf.Config() == ReadConfig(role, true, true, true)
      ensures readHalf.maxMessageSize == 0x400_0000 && Ahead() == stream.unread
    {
      this.stream := stream;
      readHalf := new ReadHalf(role);
      writeHalf := new WriteHalf(role);
      base := stream.wire;
      history := [];
      new;
      assert stream.wire == stream.wire + WireOf([]);
      assert [] + stream.unread == stream.unread;
    }

    ghost function Ahead(): seq<byte>
      reads readHalf, stream
    {
      readHalf.Ahead(stream)
    }

    /** The flag and the wire are those of the run in `history`, and what was received came through the parser. */
    ghost predicate Valid()
      reads this, stream, writeHalf
    {
      Reflects(writeHalf.closed, stream.wire, base, history) && AllParsed(history, USIZE_LIMIT)
    }

    /** `write_frame` */
    method WriteFrame(frame: Frame) returns (r: Result<(), Error>, ghost ev: Event)
      requires Valid()
      modifies this`history, stream`wire, stream`failures, writeHalf`closed, writeHalf`writeBuffer
      ensures Valid() && history == old(history) + [ev]
      ensures ev.AppWrite? && ev.frame == frame && ev.w == writeHalf.Config()
      ensures r == Put(old(RunAll(history)), Dressed(ev.w, frame, ev.key), ev.room, false).result
      ensures stream.failures == old(stream.failures) + if r == Failure(IoError) then 1 else 0
    {
      ghost var key, room;
      r, key, room := writeHalf.WriteFrame(stream, frame, false);
      ev := AppWrite(frame, writeHalf.Config(), key, room);
      ReflectsPut(old(writeHalf.closed), old(stream.wire), base, history, ev, Dressed(ev.w, frame, key), room, false,
                  writeHalf.closed, stream.wire);
      WireOfPut(RunAll(history), Dressed(ev.w, frame, key), room, false);
      ParsedAppend(history, ev, USIZE_LIMIT);
      history := history + [ev];
    }

    /** Sends the obligated frame on an open connection, and records the receipt of `f` that obliged it. */
    method Oblige(obligated: Frame, ghost f: Frame) returns (sent: Result<(), Error>, ghost ev: Event)
      requires Valid() && !writeHalf.closed && WellFormed(f, USIZE_LIMIT)
      requires React(readHalf.Config(), f).reply == Some(obligated)
      modifies this`history, stream`wire, stream`failures, writeHalf`closed, writeHalf`writeBuffer
      ensures Valid() && history == old(history) + [ev]
      ensures ev.Receipt? && ev.frame == f && ev.cfg == readHalf.Config()
      ensures writeHalf.Config() == old(writeHalf.Config()) && ev.w == writeHalf.Config()
      ensures writeHalf.closed == obligated.opcode.Close?
      ensures sent.Failure? ==> sent.error == IoError
      ensures stream.failures == old(stream.failures) + if sent.Failure? then 1 else 0
    {
      ghost var key, room;
      sent, key, room := writeHalf.WriteFrame(stream, obligated, true);
      ev := Receipt(f, readHalf.Config(), writeHalf.Config(), key, room);
      ReflectsReply(false, old(stream.wire), base, history, ev, obligated, writeHalf.closed, stream.wire);
      ParsedAppend(history, ev, USIZE_LIMIT);
      history := history + [ev];
    }

    /** Records the receipt of `f` when nothing is sent for it. */
    ghost method Note(f: Frame) returns (ev: Event)
      requires Valid() && WellFormed(f, USIZE_LIMIT) && (writeHalf.closed || React(readHalf.Config(), f).reply.None?)
      modifies this`history
      ensures Valid() && history == old(history) + [ev]
      ensures ev.Receipt? && ev.frame == f && ev.cfg == readHalf.Config()
      ensures writeHalf.Config() == old(writeHalf.Config()) && ev.w == writeHalf.Config()
    {
      ev := Receipt(f, readHalf.Config(), writeHalf.Config(), [0, 0, 0, 0], 0);
      ReflectsSilent(writeHalf.closed, stream.wire, base, history, ev);
      ParsedAppend(history, ev, USIZE_LIMIT);
      history := history + [ev];
    }

    /** The part of both read loops that reads a frame and sends the obligated one. */
    method Exchange()
      returns (res: Result<Option<Frame>, Error>, isClosed: bool, sent: Result<(), Error>, ghost added: seq<Event>)
      requires Valid()
      modifies this`history, readHalf`buffer, stream, writeHalf`closed, writeHalf`writeBuffer
      ensures readHalf.Config() == old(readHalf.Config())
      ensures Valid() && history == old(history) + added
      ensures writeHalf.Config() == old(writeHalf.Config()) && WrittenAs(added, writeHalf.Config())
      ensures isClosed == old(writeHalf.closed) && (sent.Failure? ==> sent.error == IoError)
      ensures res == Failure(IoError) ==> CutShort(old(Ahead()), Ahead())
      ensures stream.failures == old(stream.failures) + if sent.Failure? || res == Failure(IoError) then 1 else 0
      ensures sent.Failure? ==> ReactTo(readHalf.Config(), Parse(old(Ahead()), readHalf.maxMessageSize)).reply.Some?
      ensures if res == Failure(IoError) then added == [] && sent.Success? && writeHalf.closed == isClosed
              else Exchanged(Parse(old(Ahead()), readHalf.maxMessageSize), readHalf.Config(), isClosed,
                             res, writeHalf.closed, Ahead(), added)
    {
      ghost var cfg, p := readHalf.Config(), Parse(Ahead(), readHalf.maxMessageSize);
      ParseProgress(Ahead(), readHalf.maxMessageSize);
      var obligated;
      res, obligated := readHalf.ReadFrameInner(stream);
      assert readHalf.Config() == cfg;
      isClosed, sent, added := writeHalf.closed, Success(()), [];
      ghost var ev;
      if obligated.Some? && !isClosed {
        sent, ev := Oblige(obligated.value, p.frame);
        added := [ev];
      } else if res != Failure(IoError) && p.Got? {
        ev := Note(p.frame);
        added := [ev];
      }
    }

    /** One pass of the loop of `read_frame`. */
    method OnePass() returns (done: Option<Result<Frame, Error>>, ghost added: seq<Event>)
      requires Valid()
      modifies this`history, readHalf`buffer, stream, writeHalf`closed, writeHalf`writeBuffer
      ensures readHalf.Config() == old(readHalf.Config())
      ensures Valid() && history == old(history) + added
      ensures writeHalf.Config() == old(writeHalf.Config()) && WrittenAs(added, writeHalf.Config())
      ensures stream.failures == old(stream.failures) + if done == Some(Failure(IoError)) then 1 else 0
      ensures done == Some(Failure(IoError)) && added == [] ==> CutShort(old(Ahead()), Ahead())
      ensures done.None? || done.value.Success? ==> added != []
      ensures Recorded(Parse(old(Ahead()), readHalf.maxMessageSize), readHalf.Config(), old(writeHalf.closed), added,
                       writeHalf.closed, Ahead())
      ensures done == Some(Failure(IoError)) && added != [] ==>
        ReactTo(readHalf.Config(), Parse(old(Ahead()), readHalf.maxMessageSize)).reply.Some?
      ensures done != Some(Failure(IoError)) ==>
        Passed(Parse(old(Ahead()), readHalf.maxMessageSize), readHalf.Config(), old(writeHalf.closed),
               done, writeHalf.closed, Ahead())
    {
      var res, isClosed, sent;
      res, isClosed, sent, added := Exchange();
      if sent.Failure? {
        return Some(Failure(sent.error)), added;
      }
      if res.Failure? {
        return Some(Failure(res.error)), added;
      }
      if res.value.None? {
        return None, added;
      }
      if isClosed && res.value.value.opcode != Close {
        return Some(Failure(ConnectionClosed)), added;
      }
      return Some(Success(res.value.value)), added;
    }

    /** `read_frame`; `mid` is what was ahead after the last frame it handled. */
    method ReadFrame() returns (r: Result<Frame, Error>, ghost evs: seq<Event>, ghost mid: seq<byte>)
      requires Valid()
      modifies this`history, readHalf`buffer, stream, writeHalf`closed, writeHalf`writeBuffer
      ensures readHalf.Config() == old(readHalf.Config())
      ensures Valid() && history == old(history) + evs
      ensures writeHalf.Config() == old(writeHalf.Config()) && WrittenAs(evs, writeHalf.Config())
      ensures r != Failure(IoError) ==>
        Reading(r, writeHalf.closed, Ahead()) ==
        Read(readHalf.Config(), readHalf.maxMessageSize, old(writeHalf.closed), old(Ahead()))
      ensures TookAll(old(Ahead()), readHalf.maxMessageSize, readHalf.Config(), evs, mid)
      ensures r == Failure(IoError) ==> CutShort(mid, Ahead())
      ensures stream.failures == old(stream.failures) + if r == Failure(IoError) then 1 else 0
    {
      ghost var cfg, limit, input := readHalf.Config(), readHalf.maxMessageSize, Ahead();
      ghost var w, goal := writeHalf.Config(), Read(cfg, limit, writeHalf.closed, input);
      evs, mid := [], input;
      assert TookAll(input, limit, cfg, evs, mid);
      hide Read, Parse, ReadPass, TookAll, Reflects;
      while true
        invariant Valid() && history == old(history) + evs
        invariant readHalf.Config() == cfg && readHalf.maxMessageSize == limit
        invariant writeHalf.Config() == w && WrittenAs(evs, w)
        invariant Underway(cfg, limit, goal, writeHalf.closed, mid)
        invariant TookAll(input, limit, cfg, evs, mid) && mid == Ahead()
        invariant stream.failures == old(stream.failures)
        decreases |mid|
      {
        ghost var closed := writeHalf.closed;
        var done, added := OnePass();
        TookMore(input, limit, cfg, evs, mid, closed, added, writeHalf.closed, Ahead());
        if done != Some(Failure(IoError)) {
          PassAdvances(cfg, limit, goal, closed, mid, done, writeHalf.closed, Ahead());
        }
        Assoc(old(history), evs, added);
        WrittenConcat(evs, added, w);
        evs, mid := evs + added, if added == [] then mid else Ahead();
        if done.Some? {
          NothingCut(mid);
          return done.value, evs, mid;
        }
      }
    }
  }

  /** Whatever has been read, the Pongs it was answered with are short. */
  lemma PongsOfHistoryAreShort(ws: WebSocket)
    requires ws.Valid()
    ensures forall p :: p in PingsBeforeClose(ws.history) ==> |p| <= 125
    ensures forall p :: p in AutoPongs(RunAll(ws.history).log) ==> |p| <= 125
  {
    PongsAreShort(ws.history, USIZE_LIMIT);
    PongsMatchPings(ws.history);
  }
}
