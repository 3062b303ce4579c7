/** The write side of a connection as a state machine over runs of writes and receipts. */
module Endpoints {
  import opened Bytes
  import opened Errors
  import opened Frames
  import opened Masking
  import opened Parsing
  import Codec

  /** Who writes, and whether it masks. */
  datatype WriteConfig = WriteConfig(role: Role, autoApplyMask: bool)

  /** The frame as it goes on the wire, `key` being the random key a client draws. */
  function Dressed(w: WriteConfig, f: Frame, key: Key): Frame {
    if w.role.Client? && w.autoApplyMask then Masked(f, key) else f
  }

  /**
    `d` is how the frame `f` goes out: a client that applies masks XORs octet `i` of the payload with octet `i` modulo 4
    of the key, which is the frame's own or else the random one; anybody else sends the frame as it is.
   */
  ghost predicate GoesOutAs(w: WriteConfig, f: Frame, key: Key, d: Frame) {
    && d.fin == f.fin && d.opcode == f.opcode && |d.payload| == |f.payload|
    && if w.role.Client? && w.autoApplyMask then
         var k := if f.mask.Some? then f.mask.value else key;
         && d.mask == Some(k)
         && forall i :: 0 <= i < |f.payload| ==> d.payload[i] == XorByte(f.payload[i], k[i % 4])
       else d.mask == f.mask && d.payload == f.payload
  }

  lemma GoesOutExactly(w: WriteConfig, f: Frame, key: Key, d: Frame)
    ensures GoesOutAs(w, f, key, d) <==> d == Dressed(w, f, key)
  {
    if GoesOutAs(w, f, key, d) {
      assert d.payload == Dressed(w, f, key).payload;
    }
  }

  /** A frame handed to the transport, what that took of its encoding, and whether the frame is an automatic reply. */
  datatype Sent = Sent(frame: Frame, bytes: seq<byte>, auto: bool)

  datatype Endpoint = Endpoint(closed: bool, log: seq<Sent>)

  const FRESH := Endpoint(false, [])

  datatype Written = Written(endpoint: Endpoint, result: Result<(), Error>)

  /** `WriteHalf::write_frame` for a frame already dressed, over a transport that fails after `room` bytes. */
  function Put(e: Endpoint, f: Frame, room: nat, auto: bool): Written {
    if e.closed then Written(e, if f.opcode.Close? then Success(()) else Failure(ConnectionClosed))
    else
      var bytes := Encode(f);
      var complete := room >= |bytes|;
      Written(Endpoint(f.opcode.Close?, e.log + [Sent(f, if complete then bytes else bytes[..room], auto)]),
              if complete then Success(()) else Failure(IoError))
  }

  /** The bytes on the wire. */
  function WireOf(log: seq<Sent>): seq<byte> {
    if log == [] then [] else WireOf(log[..|log| - 1]) + log[|log| - 1].bytes
  }

  // ---------- Runs ----------

  /**
    The application writes a frame, or the reader handles a frame it parsed. Settings may change from one event to the
    next, so each carries those in force.
   */
  datatype Event =
    | AppWrite(frame: Frame, w: WriteConfig, key: Key, room: nat)
    | Receipt(frame: Frame, cfg: ReadConfig, w: WriteConfig, key: Key, room: nat)

  ghost function Reply(ev: Event): Option<Frame>
    requires ev.Receipt?
  {
    React(ev.cfg, ev.frame).reply
  }

  ghost function Step(e: Endpoint, ev: Event): Endpoint {
    match ev
    case AppWrite(f, w, key, room) => Put(e, Dressed(w, f, key), room, false).endpoint
    case Receipt(_, _, w, key, room) =>
      if Reply(ev).Some? && !e.closed then Put(e, Dressed(w, Reply(ev).value, key), room, true).endpoint else e
  }

  ghost function RunFrom(e: Endpoint, evs: seq<Event>): Endpoint
    decreases |evs|
  {
    if evs == [] then e else Step(RunFrom(e, evs[..|evs| - 1]), evs[|evs| - 1])
  }

  ghost function RunAll(evs: seq<Event>): Endpoint {
    RunFrom(FRESH, evs)
  }

  /** Every event found these settings of the write half. */
  ghost predicate WrittenAs(evs: seq<Event>, w: WriteConfig) {
    forall i :: 0 <= i < |evs| ==> evs[i].w == w
  }

  lemma NothingWritten(w: WriteConfig)
    ensures WrittenAs([], w)
  {
  }

  lemma WrittenConcat(a: seq<Event>, b: seq<Event>, w: WriteConfig)
    requires WrittenAs(a, w) && WrittenAs(b, w)
    ensures WrittenAs(a + b, w)
  {
  }

  // ---------- Masks on the wire ----------

  predicate Masks(w: WriteConfig) {
    w.role.Client? && w.autoApplyMask
  }

  /** What an event on an open connection adds to the log, octet by octet. */
  lemma LoggedExactly(e: Endpoint, ev: Event)
    requires !e.closed
    ensures var log := Step(e, ev).log;
            && (ev.AppWrite? ==> |log| == |e.log| + 1 && log[..|e.log|] == e.log &&
                                 GoesOutAs(ev.w, ev.frame, ev.key, log[|e.log|].frame))
            && (ev.Receipt? && Reply(ev).Some? ==>
                  |log| == |e.log| + 1 && log[..|e.log|] == e.log &&
                  GoesOutAs(ev.w, Reply(ev).value, ev.key, log[|e.log|].frame))
            && (ev.Receipt? && Reply(ev).None? ==> Step(e, ev) == e)
            && (log != e.log ==> log[|e.log|].auto == ev.Receipt? &&
                                 Step(e, ev).closed == log[|e.log|].frame.opcode.Close?)
            && (ev.Receipt? && Reply(ev).Some? ==> log[|e.log|].frame.opcode == Reply(ev).value.opcode)
  {
    var f := if ev.AppWrite? || Reply(ev).None? then ev.frame else Reply(ev).value;
    GoesOutExactly(ev.w, f, ev.key, Dressed(ev.w, f, ev.key));
    assert Dressed(ev.w, f, ev.key).opcode == f.opcode;
    hide React, Encode, Dressed, GoesOutAs;
  }

  ghost predicate AllMasked(log: seq<Sent>) {
    forall i :: 0 <= i < |log| ==> log[i].frame.mask.Some?
  }

  ghost predicate NoneMasked(log: seq<Sent>) {
    forall i :: 0 <= i < |log| ==> log[i].frame.mask == None
  }

  /** Everything a masking client hands to the transport is masked, automatic replies included. */
  lemma {:induction false} ClientsMask(evs: seq<Event>)
    requires forall i :: 0 <= i < |evs| ==> Masks(evs[i].w)
    ensures AllMasked(RunAll(evs).log)
    decreases |evs|
  {
    if evs != [] {
      var init, last := evs[..|evs| - 1], evs[|evs| - 1];
      ClientsMask(init);
      assert Masks(last.w);
      MaskedStep(RunAll(init), last);
    }
  }

  lemma MaskedStep(e: Endpoint, ev: Event)
    ensures Masks(ev.w) && AllMasked(e.log) ==> AllMasked(Step(e, ev).log)
    ensures !Masks(ev.w) && (ev.AppWrite? ==> ev.frame.mask == None) && NoneMasked(e.log) ==>
      NoneMasked(Step(e, ev).log)
  {
    hide Encode;
  }

  /** A server, or a client told not to, masks nothing. */
  lemma {:induction false} OthersDoNotMask(evs: seq<Event>)
    requires forall i :: 0 <= i < |evs| ==> !Masks(evs[i].w) && (evs[i].AppWrite? ==> evs[i].frame.mask == None)
    ensures NoneMasked(RunAll(evs).log)
    decreases |evs|
  {
    if evs != [] {
      var init, last := evs[..|evs| - 1], evs[|evs| - 1];
      OthersDoNotMask(init);
      assert !Masks(last.w) && (last.AppWrite? ==> last.frame.mask == None);
      MaskedStep(RunAll(init), last);
    }
  }

  // ---------- Close safety ----------

  /**
    A Close handed to the transport is the last frame handed to it, and is there exactly when the connection is closed.
    The transport may have taken all of it, a part or nothing.
   */
  ghost predicate Safe(e: Endpoint) {
    && (forall i :: 0 <= i < |e.log| ==> (e.log[i].frame.opcode.Close? <==> e.closed && i == |e.log| - 1))
    && (e.closed ==> e.log != [])
  }

  /** Over every run of application writes and receipts, failures of the transport included. */
  lemma {:induction false} CloseSafety(evs: seq<Event>)
    ensures Safe(RunAll(evs))
    decreases |evs|
  {
    if evs != [] {
      CloseSafety(evs[..|evs| - 1]);
      StepKeepsSafe(RunAll(evs[..|evs| - 1]), evs[|evs| - 1]);
    }
  }

  lemma StepKeepsSafe(e: Endpoint, ev: Event)
    requires Safe(e)
    ensures Safe(Step(e, ev))
  {
  }

  /** Once closed, nothing changes any more: the flag stays and no byte is added. */
  lemma {:induction false} ClosedIsFinal(e: Endpoint, evs: seq<Event>)
    requires e.closed
    ensures RunFrom(e, evs) == e
    decreases |evs|
  {
    if evs != [] {
      ClosedIsFinal(e, evs[..|evs| - 1]);
    }
  }

  lemma {:induction false} RunConcat(e: Endpoint, a: seq<Event>, b: seq<Event>)
    ensures RunFrom(e, a + b) == RunFrom(RunFrom(e, a), b)
    decreases |b|
  {
    if b == [] {
      assert a + b == a;
    } else {
      assert (a + b)[..|a + b| - 1] == a + b[..|b| - 1];
      RunConcat(e, a, b[..|b| - 1]);
    }
  }

  /** The event that closes an open connection. */
  ghost predicate Closes(ev: Event) {
    match ev
    case AppWrite(f, _, _, _) => f.opcode.Close?
    case Receipt(_, _, _, _, _) => Reply(ev).Some? && Reply(ev).value.opcode.Close?
  }

  /**
    The connection is closed exactly when some event wrote or answered a Close. From then on the wire is what it was
    after the first such event, a later Close is a silent no-op and any other write is refused.
   */
  lemma {:induction false} ClosedExactly(evs: seq<Event>)
    ensures RunAll(evs).closed <==> exists i :: 0 <= i < |evs| && Closes(evs[i])
    decreases |evs|
  {
    if evs != [] {
      var init, last := evs[..|evs| - 1], evs[|evs| - 1];
      ClosedExactly(init);
      if RunAll(init).closed {
        var i :| 0 <= i < |init| && Closes(init[i]);
        assert Closes(evs[i]);
      } else {
        assert RunAll(evs).closed <==> Closes(last);
      }
    }
  }

  lemma WritesAfterClose(evs: seq<Event>, more: seq<Event>, f: Frame, room: nat)
    requires exists i :: 0 <= i < |evs| && Closes(evs[i])
    ensures RunAll(evs + more) == RunAll(evs)
    ensures var w := Put(RunAll(evs + more), f, room, false);
            && w.endpoint == RunAll(evs)
            && w.result == if f.opcode.Close? then Success(()) else Failure(ConnectionClosed)
  {
    ClosedExactly(evs);
    RunConcat(FRESH, evs, more);
    ClosedIsFinal(RunAll(evs), more);
  }

  // ---------- Automatic replies ----------

  /** The payloads the peer reads in the automatic Pongs. */
  function AutoPongs(log: seq<Sent>): seq<seq<byte>> {
    if log == [] then []
    else
      var last := log[|log| - 1];
      AutoPongs(log[..|log| - 1]) +
      if last.auto && last.frame.opcode.Pong? then [Unmasked(last.frame).payload] else []
  }

  ghost predicate IsAnsweredPing(ev: Event) {
    ev.Receipt? && ev.frame.opcode.Ping? && ev.cfg.autoPong
  }

  /** The payloads of the Pings read before the first event that closes the connection. */
  ghost function PingsBeforeClose(evs: seq<Event>): seq<seq<byte>>
    decreases |evs|
  {
    if evs == [] then []
    else
      var init, last := evs[..|evs| - 1], evs[|evs| - 1];
      PingsBeforeClose(init) +
      if IsAnsweredPing(last) && (forall i :: 0 <= i < |init| ==> !Closes(init[i]))
      then [Received(last.cfg, last.frame).payload] else []
  }

  lemma DressedPayload(w: WriteConfig, payload: seq<byte>, key: Key)
    ensures var d := Dressed(w, PongFrame(payload), key);
            d.opcode.Pong? && Unmasked(d).payload == payload
  {
    UnmaskUndoesMask(PongFrame(payload), key);
  }

  /** The automatic Pongs are exactly the payloads of the Pings read before the close, in order. */
  lemma {:induction false} PongsMatchPings(evs: seq<Event>)
    ensures AutoPongs(RunAll(evs).log) == PingsBeforeClose(evs)
    decreases |evs|
  {
    if evs != [] {
      var init, last := evs[..|evs| - 1], evs[|evs| - 1];
      PongsMatchPings(init);
      ClosedExactly(init);
      PongStep(RunAll(init), last);
    }
  }

  lemma PongStep(e: Endpoint, ev: Event)
    ensures AutoPongs(Step(e, ev).log) ==
            AutoPongs(e.log) + if IsAnsweredPing(ev) && !e.closed then [Received(ev.cfg, ev.frame).payload] else []
  {
    PongReplies(ev);
    hide React, Encode, Unmasked, Dressed, Received;
    if ev.AppWrite? {
      PongPut(e, Dressed(ev.w, ev.frame, ev.key), ev.room, false);
    } else if Reply(ev).Some? {
      PongPut(e, Dressed(ev.w, Reply(ev).value, ev.key), ev.room, true);
    }
    assert AutoPongs(e.log) + [] == AutoPongs(e.log);
  }

  lemma PongPut(e: Endpoint, f: Frame, room: nat, auto: bool)
    ensures AutoPongs(Put(e, f, room, auto).endpoint.log) ==
            AutoPongs(e.log) + if auto && f.opcode.Pong? && !e.closed then [Unmasked(f).payload] else []
  {
    hide Encode, Unmasked;
    assert AutoPongs(e.log) + [] == AutoPongs(e.log);
    if !e.closed {
      var after := Put(e, f, room, auto).endpoint.log;
      assert after[..|after| - 1] == e.log;
    }
  }

  /** A receipt is answered with a Pong exactly if it is a Ping to be answered. */
  lemma PongReplies(ev: Event)
    ensures ev.Receipt? ==>
      (IsAnsweredPing(ev) <==>
         Reply(ev).Some? && Dressed(ev.w, Reply(ev).value, ev.key).opcode.Pong?)
    ensures IsAnsweredPing(ev) ==>
      Unmasked(Dressed(ev.w, Reply(ev).value, ev.key)).payload == Received(ev.cfg, ev.frame).payload
  {
    if IsAnsweredPing(ev) {
      DressedPayload(ev.w, Received(ev.cfg, ev.frame).payload, ev.key);
    }
  }

  /** Every frame received came through a parser. */
  ghost predicate AllParsed(evs: seq<Event>, limit: nat) {
    forall i :: 0 <= i < |evs| ==> evs[i].Receipt? ==> WellFormed(evs[i].frame, limit)
  }

  ghost predicate AllWritable(evs: seq<Event>, limit: nat) {
    forall i :: 0 <= i < |evs| ==> evs[i].AppWrite? ==> WellFormed(evs[i].frame, limit)
  }

  lemma ParsedAppend(evs: seq<Event>, ev: Event, limit: nat)
    requires AllParsed(evs, limit) && (ev.Receipt? ==> WellFormed(ev.frame, limit))
    ensures AllParsed(evs + [ev], limit)
  {
    hide WellFormed;
  }

  /** Pings that came through the parser are short, and so are the Pongs. */
  lemma {:induction false} PongsAreShort(evs: seq<Event>, limit: nat)
    requires AllParsed(evs, limit)
    ensures forall p :: p in PingsBeforeClose(evs) ==> |p| <= 125
    decreases |evs|
  {
    if evs != [] {
      PongsAreShort(evs[..|evs| - 1], limit);
    }
  }

  // ---------- What the peer reads ----------

  function FramesOf(log: seq<Sent>): seq<Frame> {
    if log == [] then [] else FramesOf(log[..|log| - 1]) + [log[|log| - 1].frame]
  }

  ghost predicate Complete(log: seq<Sent>) {
    forall i :: 0 <= i < |log| ==> log[i].bytes == Encode(log[i].frame)
  }

  lemma {:induction false} EncodeAllAppend(fs: seq<Frame>, f: Frame)
    ensures EncodeAll(fs + [f]) == EncodeAll(fs) + Encode(f)
    decreases |fs|
  {
    if fs == [] {
      assert fs + [f] == [f];
      assert EncodeAll([f]) == Encode(f) + EncodeAll([]);
    } else {
      assert (fs + [f])[1..] == fs[1..] + [f];
      EncodeAllAppend(fs[1..], f);
      Assoc(Encode(fs[0]), EncodeAll(fs[1..]), Encode(f));
    }
  }

  lemma {:induction false} CompleteWire(log: seq<Sent>)
    requires Complete(log)
    ensures WireOf(log) == EncodeAll(FramesOf(log))
    decreases |log|
  {
    if log != [] {
      CompleteWire(log[..|log| - 1]);
      EncodeAllAppend(FramesOf(log[..|log| - 1]), log[|log| - 1].frame);
    }
  }

  /** Without write failures the peer's parser reads back exactly the frames that were written, and nothing else. */
  lemma PeerReadsLog(log: seq<Sent>, limit: usize)
    requires Complete(log)
    requires forall f :: f in FramesOf(log) ==> WellFormed(f, limit)
    ensures Codec.ParseAll(WireOf(log), limit) == Codec.Transcript(FramesOf(log), Failed(UnexpectedEOF, []))
  {
    CompleteWire(log);
    Codec.WholeStreamRoundTrip(FramesOf(log), limit);
  }

  lemma {:induction false} FramesOfLog(log: seq<Sent>)
    ensures |FramesOf(log)| == |log| && forall i :: 0 <= i < |log| ==> FramesOf(log)[i] == log[i].frame
    decreases |log|
  {
    if log != [] {
      FramesOfLog(log[..|log| - 1]);
    }
  }

  /** Replies are as long as what they answer, so the log of parsed and writable frames can be parsed by the peer. */
  lemma {:induction false} LogIsWellFormed(evs: seq<Event>, limit: nat)
    requires AllParsed(evs, limit) && AllWritable(evs, limit)
    ensures forall f :: f in FramesOf(RunAll(evs).log) ==> WellFormed(f, limit)
    decreases |evs|
  {
    if evs != [] {
      var init, last := evs[..|evs| - 1], evs[|evs| - 1];
      LogIsWellFormed(init, limit);
      assert last.Receipt? ==> WellFormed(last.frame, limit);
      assert last.AppWrite? ==> WellFormed(last.frame, limit);
      StepIsWellFormed(RunAll(init), last, limit);
    }
  }

  lemma StepIsWellFormed(e: Endpoint, ev: Event, limit: nat)
    requires WellFormed(ev.frame, limit)
    requires forall f :: f in FramesOf(e.log) ==> WellFormed(f, limit)
    ensures forall f :: f in FramesOf(Step(e, ev).log) ==> WellFormed(f, limit)
  {
    if ev.Receipt? {
      ReplyIsWellFormed(ev, limit);
    } else {
      assert WellFormed(Dressed(ev.w, ev.frame, ev.key), limit);
    }
    hide React, Encode, WellFormed, Dressed;
    var after := Step(e, ev).log;
    if after != e.log {
      assert after[..|after| - 1] == e.log;
    }
  }

  lemma ReplyIsWellFormed(ev: Event, limit: nat)
    requires ev.Receipt? && WellFormed(ev.frame, limit)
    ensures Reply(ev).Some? ==> WellFormed(Dressed(ev.w, Reply(ev).value, ev.key), limit)
  {
  }

  /** What close safety means to the peer: the frames it reads contain a Close at most as the very last one. */
  lemma PeerReadsOneClose(evs: seq<Event>, limit: usize)
    requires Complete(RunAll(evs).log)
    requires forall f :: f in FramesOf(RunAll(evs).log) ==> WellFormed(f, limit)
    ensures var t := Codec.ParseAll(WireOf(RunAll(evs).log), limit);
            && t.end == Failed(UnexpectedEOF, [])
            && (forall i :: 0 <= i < |t.frames| ==>
                  (t.frames[i].opcode.Close? <==> RunAll(evs).closed && i == |t.frames| - 1))
  {
    PeerReadsLog(RunAll(evs).log, limit);
    CloseSafety(evs);
    FramesOfLog(RunAll(evs).log);
  }

  /** The peer of a masking client reads masked frames only. */
  lemma PeerReadsMasked(evs: seq<Event>, limit: usize)
    requires forall i :: 0 <= i < |evs| ==> Masks(evs[i].w)
    requires Complete(RunAll(evs).log)
    requires forall f :: f in FramesOf(RunAll(evs).log) ==> WellFormed(f, limit)
    ensures var t := Codec.ParseAll(WireOf(RunAll(evs).log), limit);
            |t.frames| == |RunAll(evs).log| && forall i :: 0 <= i < |t.frames| ==> t.frames[i].mask.Some?
  {
    PeerReadsLog(RunAll(evs).log, limit);
    ClientsMask(evs);
    FramesOfLog(RunAll(evs).log);
  }

  // ---------- The Pongs the peer reads ----------

  /** The payloads of the Pongs among frames read. */
  function PongPayloads(fs: seq<Frame>): seq<seq<byte>> {
    if fs == [] then []
    else
      var last := fs[|fs| - 1];
      PongPayloads(fs[..|fs| - 1]) + if last.opcode.Pong? then [Unmasked(last).payload] else []
  }

  ghost predicate OnlyAutoPongs(log: seq<Sent>) {
    forall i :: 0 <= i < |log| ==> log[i].frame.opcode.Pong? ==> log[i].auto
  }

  ghost predicate WritesNoPong(evs: seq<Event>) {
    forall i :: 0 <= i < |evs| ==> evs[i].AppWrite? ==> !evs[i].frame.opcode.Pong?
  }

  lemma {:induction false} PongsAreAuto(evs: seq<Event>)
    requires WritesNoPong(evs)
    ensures OnlyAutoPongs(RunAll(evs).log)
    decreases |evs|
  {
    if evs != [] {
      PongsAreAuto(evs[..|evs| - 1]);
      hide React, Encode;
      assert !evs[|evs| - 1].AppWrite? || !evs[|evs| - 1].frame.opcode.Pong?;
    }
  }

  lemma {:induction false} PongsOfLog(log: seq<Sent>)
    requires OnlyAutoPongs(log)
    ensures PongPayloads(FramesOf(log)) == AutoPongs(log)
    decreases |log|
  {
    hide Unmasked;
    if log != [] {
      var init, last := log[..|log| - 1], log[|log| - 1];
      PongsOfLog(init);
      assert (FramesOf(init) + [last.frame])[..|FramesOf(log)| - 1] == FramesOf(init);
    }
  }

  /**
    Without write failures, and if the application writes no Pong of its own, the Pongs the peer reads carry exactly the
    payloads of the Pings read before the close, in order.
   */
  lemma PeerReadsPongs(evs: seq<Event>, limit: usize)
    requires Complete(RunAll(evs).log) && WritesNoPong(evs)
    requires forall f :: f in FramesOf(RunAll(evs).log) ==> WellFormed(f, limit)
    ensures var t := Codec.ParseAll(WireOf(RunAll(evs).log), limit);
            PongPayloads(t.frames) == PingsBeforeClose(evs) && t.end == Failed(UnexpectedEOF, [])
  {
    PeerReadsLog(RunAll(evs).log, limit);
    PongsAreAuto(evs);
    PongsOfLog(RunAll(evs).log);
    PongsMatchPings(evs);
  }
}
