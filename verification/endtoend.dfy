/** From the writes of one side to the messages of the other. */
module EndToEnd {
  import opened Bytes
  import opened Errors
  import opened Frames
  import opened Masking
  import opened Parsing
  import opened Endpoints
  import opened WebSockets
  import opened Fragmentation
  import opened Reassembly
  import opened Collectors
  import opened Calling
  import Utf8

  // ---------- Messages in pieces ----------

  /** A message as the sender means it. */
  datatype Whole = Whole(opcode: OpCode, payload: seq<byte>)

  function Prefix(sent: Option<seq<byte>>): seq<byte> {
    if sent.Some? then sent.value else []
  }

  /** Text that is valid, or anything binary, below the size limit. */
  ghost predicate Fits(m: Whole, limit: nat) {
    (m.opcode.Text? || m.opcode.Binary?) && |m.payload| < limit && MayEnd(m.opcode, m.payload)
  }

  /**
    `fs` are Pings, Pongs and the pieces of the messages `ms`, one message after the other; of the first one `sent` has
    gone before (`None` before its first piece). Payloads count as unmasked.
   */
  predicate Carries(sent: Option<seq<byte>>, fs: seq<Frame>, ms: seq<Whole>)
    decreases |fs|
  {
    if fs == [] then ms == [] && sent.None?
    else
      var f := fs[0];
      if f.opcode.Ping? || f.opcode.Pong? then Carries(sent, fs[1..], ms)
      else
        var bytes := Prefix(sent) + Unmasked(f).payload;
        && ms != [] && f.opcode == (if sent.Some? then Continuation else ms[0].opcode)
        && if f.fin then bytes == ms[0].payload && Carries(None, fs[1..], ms[1..])
           else Carries(Some(bytes), fs[1..], ms)
  }

  function Delivered(m: Whole): Result<Frame, Error> {
    Success(Frame(true, m.opcode, None, m.payload))
  }

  function DeliveredAll(ms: seq<Whole>): seq<Result<Frame, Error>> {
    if ms == [] then [] else [Delivered(ms[0])] + DeliveredAll(ms[1..])
  }

  /** What the reading application gets: every message when its final piece arrives, and every Pong. */
  function Expected(cfg: ReadConfig, fs: seq<Frame>, ms: seq<Whole>): seq<Result<Frame, Error>> {
    if fs == [] then []
    else if fs[0].opcode.Pong? then [Success(Received(cfg, fs[0]))] + Expected(cfg, fs[1..], ms)
    else if fs[0].opcode.Ping? || !fs[0].fin || ms == [] then Expected(cfg, fs[1..], ms)
    else [Delivered(ms[0])] + Expected(cfg, fs[1..], ms[1..])
  }

  /** The results without the Pongs. */
  function WithoutPongs(results: seq<Result<Frame, Error>>): seq<Result<Frame, Error>> {
    if results == [] then []
    else if results[0].Success? && results[0].value.opcode.Pong? then WithoutPongs(results[1..])
    else [results[0]] + WithoutPongs(results[1..])
  }

  /** Apart from the Pongs these are the messages, each once and in order. */
  lemma {:induction false} ExpectedMessages(cfg: ReadConfig, sent: Option<seq<byte>>, fs: seq<Frame>, ms: seq<Whole>,
                                            limit: nat)
    requires Carries(sent, fs, ms) && forall m :: m in ms ==> Fits(m, limit)
    ensures WithoutPongs(Expected(cfg, fs, ms)) == DeliveredAll(ms)
    decreases |fs|
  {
    if fs != [] {
      var f := fs[0];
      if f.opcode.Ping? || f.opcode.Pong? {
        ExpectedMessages(cfg, sent, fs[1..], ms, limit);
        if f.opcode.Pong? {
          SkipFirst(Success(Received(cfg, f)), Expected(cfg, fs[1..], ms));
        }
      } else if f.fin {
        assert Fits(ms[0], limit);
        ExpectedMessages(cfg, None, fs[1..], ms[1..], limit);
        SkipFirst(Delivered(ms[0]), Expected(cfg, fs[1..], ms[1..]));
      } else {
        ExpectedMessages(cfg, Some(Prefix(sent) + Unmasked(f).payload), fs[1..], ms, limit);
      }
    }
  }

  lemma SkipFirst(r: Result<Frame, Error>, more: seq<Result<Frame, Error>>)
    ensures WithoutPongs([r] + more) ==
            if r.Success? && r.value.opcode.Pong? then WithoutPongs(more) else [r] + WithoutPongs(more)
  {
    assert ([r] + more)[1..] == more;
  }

  // ---------- The reading side ----------

  /** A reader that answers Pings and sees the payloads of these frames in the clear. */
  predicate Understands(cfg: ReadConfig, fs: seq<Frame>) {
    cfg.autoPong && forall f :: f in fs ==> Received(cfg, f) == Unmasked(f)
  }

  predicate Serving(cfg: ReadConfig) {
    cfg.role.Server? && cfg.autoApplyMask && cfg.autoPong
  }

  predicate ReadingAsClient(cfg: ReadConfig) {
    cfg.role.Client? && cfg.autoPong
  }

  ghost function OpenAt(sent: Option<seq<byte>>, ms: seq<Whole>): Open {
    if sent.Some? && ms != [] then Intact(ms[0].opcode, sent.value) else Closed
  }

  /** The pieces carry the bytes that are still missing. */
  lemma {:induction false} CarriesRest(sent: Option<seq<byte>>, fs: seq<Frame>, ms: seq<Whole>)
    requires Carries(sent, fs, ms) && sent.Some?
    ensures ms != [] && sent.value <= ms[0].payload
    decreases |fs|
  {
    var f := fs[0];
    if f.opcode.Ping? || f.opcode.Pong? {
      CarriesRest(sent, fs[1..], ms);
    } else if !f.fin {
      CarriesRest(Some(sent.value + Unmasked(f).payload), fs[1..], ms);
    }
  }

  /** One piece of a message, as the assembler judges it. */
  lemma JudgePiece(s: State, sent: Option<seq<byte>>, f: Frame, m: Whole, limit: usize)
    requires Fits(m, limit) && Holds(s, OpenAt(sent, [m]))
    requires f.opcode == if sent.Some? then Continuation else m.opcode
    requires Prefix(sent) + f.payload <= m.payload && (f.fin ==> Prefix(sent) + f.payload == m.payload)
    ensures var o := Assemble(s, f, limit);
            if f.fin then AssemblyResult(o.result) == Some(Delivered(m)) && Holds(o.state, Closed)
            else o.result == Success(None) && Holds(o.state, Intact(m.opcode, Prefix(sent) + f.payload))
  {
    var bytes := Prefix(sent) + f.payload;
    PieceMayContinue(m, bytes, limit);
    assert sent.None? ==> bytes == f.payload;
    hide Assemble, Holds, Utf8.Viable;
    StreamingRefinesJudge(s, OpenAt(sent, [m]), f, limit);
  }

  lemma PieceMayContinue(m: Whole, bytes: seq<byte>, limit: nat)
    requires Fits(m, limit) && bytes <= m.payload
    ensures MayContinue(m.opcode, bytes) && LongestValidIfText(m)
  {
    assert bytes + m.payload[|bytes|..] == m.payload;
    if m.opcode.Text? {
      ValidIsViable(m.payload);
      ViablePrefix(bytes, m.payload[|bytes|..]);
    }
  }

  ghost predicate LongestValidIfText(m: Whole) {
    m.opcode.Text? ==> LongestValid(m.payload) == m.payload
  }

  /** How the reader handles a frame of a message. */
  lemma PiecePass(cfg: ReadConfig, limit: usize, s: State, f: Frame)
    requires cfg.autoPong && Received(cfg, f) == Unmasked(f) && !f.opcode.Close?
    ensures var t := CollectPass(cfg, limit, false, s, Got(f, []));
            var o := Assemble(s, Unmasked(f), limit);
            t == if f.opcode.Ping? then Turn(None, false, s) else Turn(AssemblyResult(o.result), false, o.state)
  {
    hide Assemble;
  }

  /** What the frames bring about. */
  ghost predicate Yields(cfg: ReadConfig, limit: usize, s: State, fs: seq<Frame>, results: seq<Result<Frame, Error>>) {
    var h := HandleAll(cfg, limit, false, s, fs);
    h.results == results && !h.closed && h.assembly.fragments == None
  }

  lemma YieldsFirst(cfg: ReadConfig, limit: usize, s: State, f: Frame, fs: seq<Frame>, next: State,
                    done: Option<Result<Frame, Error>>, results: seq<Result<Frame, Error>>)
    requires CollectPass(cfg, limit, false, s, Got(f, [])) == Turn(done, false, next)
    requires Yields(cfg, limit, next, fs, results)
    ensures Yields(cfg, limit, s, [f] + fs, ResultOf(done) + results)
  {
    hide CollectPass;
    HandleFirst(cfg, limit, false, s, f, fs);
  }

  /**
    Messages cut into any pieces, with Pings and Pongs anywhere between the pieces and any masks, come out of the
    reader's collector as final frames. Each Pong comes out as it arrives; Pings do not come out.
   */
  lemma {:induction false} ReaderHandles(cfg: ReadConfig, limit: usize, s: State, sent: Option<seq<byte>>,
                                         fs: seq<Frame>, ms: seq<Whole>)
    requires Understands(cfg, fs) && Carries(sent, fs, ms) && forall m :: m in ms ==> Fits(m, limit)
    requires Holds(s, OpenAt(sent, ms))
    ensures Yields(cfg, limit, s, fs, Expected(cfg, fs, ms))
    decreases |fs|
  {
    if fs == [] {
      NothingYields(cfg, limit, s);
    } else {
      var f, rest := fs[0], fs[1..];
      assert fs == [f] + rest && f in fs && Understands(cfg, rest);
      hide CollectPass, Assemble, Holds, Yields, Fits, MayEnd;
      if f.opcode.Ping? || f.opcode.Pong? {
        ReaderHandles(cfg, limit, s, sent, rest, ms);
        ControlYields(cfg, limit, s, f, rest, Expected(cfg, rest, ms));
      } else {
        ReaderHandlesPiece(cfg, limit, s, sent, f, rest, ms);
      }
    }
  }

  lemma ControlYields(cfg: ReadConfig, limit: usize, s: State, f: Frame, rest: seq<Frame>,
                      results: seq<Result<Frame, Error>>)
    requires cfg.autoPong && Received(cfg, f) == Unmasked(f) && (f.opcode.Ping? || f.opcode.Pong?)
    requires Yields(cfg, limit, s, rest, results)
    ensures Yields(cfg, limit, s, [f] + rest, if f.opcode.Pong? then [Success(Received(cfg, f))] + results else results)
  {
    PiecePass(cfg, limit, s, f);
    hide CollectPass, Yields;
    assert [] + results == results;
    if f.opcode.Ping? {
      YieldsFirst(cfg, limit, s, f, rest, s, None, results);
    } else {
      YieldsFirst(cfg, limit, s, f, rest, s, Some(Success(Received(cfg, f))), results);
    }
  }

  lemma NothingYields(cfg: ReadConfig, limit: usize, s: State)
    requires Holds(s, Closed)
    ensures Yields(cfg, limit, s, [], [])
  {
  }

  lemma {:induction false} ReaderHandlesPiece(cfg: ReadConfig, limit: usize, s: State, sent: Option<seq<byte>>,
                                              f: Frame, rest: seq<Frame>, ms: seq<Whole>)
    requires Understands(cfg, [f] + rest) && Carries(sent, [f] + rest, ms) && forall m :: m in ms ==> Fits(m, limit)
    requires Holds(s, OpenAt(sent, ms)) && !f.opcode.Ping? && !f.opcode.Pong?
    ensures Yields(cfg, limit, s, [f] + rest, Expected(cfg, [f] + rest, ms))
    decreases |rest| + 1, 0
  {
    var fs, m, next := [f] + rest, ms[0], Assemble(s, Unmasked(f), limit).state;
    var bytes := Prefix(sent) + Unmasked(f).payload;
    assert f in fs && Understands(cfg, rest);
    assert fs[1..] == rest && OpenAt(sent, [m]) == OpenAt(sent, ms) && Fits(m, limit);
    PiecePass(cfg, limit, s, f);
    if f.fin {
      JudgePiece(s, sent, Unmasked(f), m, limit);
      ReaderHandles(cfg, limit, next, None, rest, ms[1..]);
      YieldsFirst(cfg, limit, s, f, rest, next, Some(Delivered(m)), Expected(cfg, rest, ms[1..]));
    } else {
      CarriesRest(Some(bytes), rest, ms);
      JudgePiece(s, sent, Unmasked(f), m, limit);
      ReaderHandles(cfg, limit, next, Some(bytes), rest, ms);
      YieldsFirst(cfg, limit, s, f, rest, next, None, Expected(cfg, rest, ms));
    }
  }

  /**
    The same from the bytes: as many calls as there are results return them, and a call after that starts at `tail` with
    no message open.
   */
  lemma ReaderReads(cfg: ReadConfig, limit: usize, s: State, sent: Option<seq<byte>>, fs: seq<Frame>, ms: seq<Whole>,
                    tail: seq<byte>, n: nat)
    requires Understands(cfg, fs) && Carries(sent, fs, ms) && forall m :: m in ms ==> Fits(m, limit)
    requires Holds(s, OpenAt(sent, ms)) && forall f :: f in fs ==> WellFormed(f, limit)
    ensures var input, results := EncodeAll(fs) + tail, Expected(cfg, fs, ms);
            && CollectMany(cfg, limit, false, s, input, |results|).results == results
            && var next := HandleAll(cfg, limit, false, s, fs).assembly;
               && next.fragments == None
               && (n > 0 ==> CollectMany(cfg, limit, false, s, input, |results| + n) ==
                             After(results, CollectMany(cfg, limit, false, next, tail, n)))
  {
    hide *;
    ReaderHandles(cfg, limit, s, sent, fs, ms);
    CallsOverFrames(cfg, limit, false, s, fs, tail, 0);
    CallsOverFrames(cfg, limit, false, s, fs, tail, n);
    CallsYield(cfg, limit, s, fs, EncodeAll(fs) + tail, tail, Expected(cfg, fs, ms), n);
  }

  lemma CallsYield(cfg: ReadConfig, limit: usize, s: State, fs: seq<Frame>, input: seq<byte>, tail: seq<byte>,
                   results: seq<Result<Frame, Error>>, n: nat)
    requires Yields(cfg, limit, s, fs, results)
    requires OverFrames(cfg, limit, false, s, fs, input, tail, 0)
    requires OverFrames(cfg, limit, false, s, fs, input, tail, n)
    ensures var next := HandleAll(cfg, limit, false, s, fs).assembly;
            && CollectMany(cfg, limit, false, s, input, |results|).results == results
            && next.fragments == None
            && (n > 0 ==> CollectMany(cfg, limit, false, s, input, |results| + n) ==
                          After(results, CollectMany(cfg, limit, false, next, tail, n)))
  {
    hide HandleAll, CollectMany;
  }

  // ---------- The writing side ----------

  /** The frame an event puts on the wire of an open connection, before it is masked. */
  ghost function Meant(ev: Event): Option<Frame> {
    match ev
    case AppWrite(f, _, _, _) => Some(f)
    case Receipt(_, _, _, _, _) => Reply(ev)
  }

  /** What the event writes, if anything, is an unmasked frame other than a Close, and all of it reaches the wire. */
  ghost predicate Reaches(ev: Event, limit: nat) {
    Meant(ev).Some? ==>
      var f := Meant(ev).value;
      && f.mask == None && !f.opcode.Close? && WellFormed(f, limit)
      && ev.room >= |Encode(Dressed(ev.w, f, ev.key))|
  }

  ghost predicate Writes(evs: seq<Event>, limit: nat) {
    forall i :: 0 <= i < |evs| ==> Reaches(evs[i], limit)
  }

  ghost function MeantFrames(ev: Event): seq<Frame> {
    if Meant(ev).Some? then [Meant(ev).value] else []
  }

  /** The same as it goes out. */
  ghost function DressedFrames(ev: Event): seq<Frame> {
    if Meant(ev).Some? then [Dressed(ev.w, Meant(ev).value, ev.key)] else []
  }

  /** What the application and the automatic Pongs put in, in order. */
  ghost function Given(evs: seq<Event>): seq<Frame>
    decreases |evs|
  {
    if evs == [] then [] else Given(evs[..|evs| - 1]) + MeantFrames(evs[|evs| - 1])
  }

  ghost function OnTheWire(evs: seq<Event>): seq<Frame>
    decreases |evs|
  {
    if evs == [] then [] else OnTheWire(evs[..|evs| - 1]) + DressedFrames(evs[|evs| - 1])
  }

  /** The frames differ in their masks only. */
  predicate Alike(fs: seq<Frame>, ds: seq<Frame>) {
    && |fs| == |ds|
    && forall i :: 0 <= i < |fs| ==>
         && ds[i].opcode == fs[i].opcode && ds[i].fin == fs[i].fin && Unmasked(ds[i]).payload == Unmasked(fs[i]).payload
  }

  /** `e` is open and has everything on the wire that was put in. */
  ghost predicate Arrived(e: Endpoint, given: seq<Frame>, sent: seq<Frame>, limit: nat) {
    && !e.closed && Complete(e.log) && FramesOf(e.log) == sent
    && Alike(given, sent) && forall f :: f in sent ==> WellFormed(f, limit)
  }

  lemma {:induction false} WritesReachTheWire(evs: seq<Event>, limit: nat)
    requires Writes(evs, limit)
    ensures Arrived(RunAll(evs), Given(evs), OnTheWire(evs), limit)
    decreases |evs|
  {
    if evs != [] {
      var init, last := evs[..|evs| - 1], evs[|evs| - 1];
      hide Arrived, Reaches, MeantFrames, DressedFrames, Step;
      WritesReachTheWire(init, limit);
      OneMoreArrives(RunAll(init), Given(init), OnTheWire(init), last, limit);
    }
  }

  lemma OneMoreArrives(e: Endpoint, given: seq<Frame>, sent: seq<Frame>, ev: Event, limit: nat)
    requires Arrived(e, given, sent, limit) && Reaches(ev, limit)
    ensures Arrived(Step(e, ev), given + MeantFrames(ev), sent + DressedFrames(ev), limit)
  {
    OneReaches(e, ev, limit);
    if Meant(ev).Some? {
      var f := Meant(ev).value;
      DressedIsAlike(ev.w, f, ev.key);
      AlikeAppend(given, sent, f, Dressed(ev.w, f, ev.key));
      assert WellFormed(Dressed(ev.w, f, ev.key), limit);
    } else {
      assert given + [] == given && sent + [] == sent;
    }
    hide Step, Reaches, Dressed, Unmasked, Meant, Alike, Complete, FramesOf, WellFormed;
  }

  lemma OneReaches(e: Endpoint, ev: Event, limit: nat)
    requires !e.closed && Complete(e.log) && Reaches(ev, limit)
    ensures var next := Step(e, ev);
            && !next.closed && Complete(next.log)
            && FramesOf(next.log) == FramesOf(e.log) + DressedFrames(ev)
  {
    hide React, Encode;
    var next := Step(e, ev);
    if Meant(ev).Some? {
      assert next.log[..|next.log| - 1] == e.log;
    } else {
      assert FramesOf(e.log) + [] == FramesOf(e.log);
    }
  }

  lemma DressedIsAlike(w: WriteConfig, f: Frame, key: Key)
    requires f.mask == None
    ensures var d := Dressed(w, f, key);
            d.opcode == f.opcode && d.fin == f.fin && |d.payload| == |f.payload| && Unmasked(d).payload == f.payload
  {
    UnmaskUndoesMask(f, key);
  }

  lemma AlikeAppend(fs: seq<Frame>, ds: seq<Frame>, f: Frame, d: Frame)
    requires Alike(fs, ds)
    requires d.opcode == f.opcode && d.fin == f.fin && Unmasked(d).payload == Unmasked(f).payload
    ensures Alike(fs + [f], ds + [d])
  {
    hide Unmasked;
  }

  /** Masking does not change what a list of frames carries. */
  lemma {:induction false} AlikeCarries(sent: Option<seq<byte>>, fs: seq<Frame>, ds: seq<Frame>, ms: seq<Whole>)
    requires Carries(sent, fs, ms) && Alike(fs, ds)
    ensures Carries(sent, ds, ms)
    decreases |fs|
  {
    if fs != [] {
      var f := fs[0];
      assert Alike(fs[1..], ds[1..]);
      hide Unmasked;
      assert ds[0].opcode == f.opcode && ds[0].fin == f.fin && Unmasked(ds[0]).payload == Unmasked(f).payload;
      if f.opcode.Ping? || f.opcode.Pong? {
        AlikeCarries(sent, fs[1..], ds[1..], ms);
      } else if f.fin {
        AlikeCarries(None, fs[1..], ds[1..], ms[1..]);
      } else {
        AlikeCarries(Some(Prefix(sent) + Unmasked(f).payload), fs[1..], ds[1..], ms);
      }
    }
  }

  /** Whatever happens later, what is on the wire stays there. */
  lemma {:induction false} WireGrows(a: seq<Event>, b: seq<Event>)
    ensures WireOf(RunAll(a).log) <= WireOf(RunAll(a + b).log)
    decreases |b|
  {
    if b == [] {
      assert a + b == a;
    } else {
      var init, last := b[..|b| - 1], b[|b| - 1];
      assert a + b == (a + init) + [last];
      WireGrows(a, init);
      RunAppend(a + init, last);
      StepGrows(RunAll(a + init), last);
    }
  }

  lemma StepGrows(e: Endpoint, ev: Event)
    ensures WireOf(e.log) <= WireOf(Step(e, ev).log)
  {
    hide React, Encode;
    var after := Step(e, ev).log;
    if after != e.log {
      assert after[..|after| - 1] == e.log;
    }
  }

  /**
    End to end. If the first part of one side's history, its automatic Pongs included, carries the messages `ms` in any
    pieces, then whatever keys it drew, whatever it did afterwards and however its transport failed then, the collector
    of the other side returns these messages, each once, in order and whole.
   */
  lemma SenderToReader(a: seq<Event>, b: seq<Event>, ms: seq<Whole>, cfg: ReadConfig, limit: usize)
    requires Understands(cfg, OnTheWire(a)) && Writes(a, limit)
    requires Carries(None, Given(a), ms) && forall m :: m in ms ==> Fits(m, limit)
    ensures var results := Expected(cfg, OnTheWire(a), ms);
            && CollectMany(cfg, limit, false, NEW_STATE, WireOf(RunAll(a + b).log), |results|).results == results
            && WithoutPongs(results) == DeliveredAll(ms)
  {
    hide *;
    var ds, start, wire := OnTheWire(a), WireOf(RunAll(a).log), WireOf(RunAll(a + b).log);
    ReadyToRead(a, ms, limit);
    WireGrows(a, b);
    assert wire == start + wire[|start|..];
    ReaderReads(cfg, limit, NEW_STATE, None, ds, ms, wire[|start|..], 0);
    ExpectedMessages(cfg, None, ds, ms, limit);
  }

  lemma ReadyToRead(a: seq<Event>, ms: seq<Whole>, limit: nat)
    requires Writes(a, limit) && Carries(None, Given(a), ms)
    ensures WireOf(RunAll(a).log) == EncodeAll(OnTheWire(a)) && Carries(None, OnTheWire(a), ms)
    ensures Holds(NEW_STATE, OpenAt(None, ms)) && forall f :: f in OnTheWire(a) ==> WellFormed(f, limit)
  {
    WritesReachTheWire(a, limit);
    hide Carries, WireOf, EncodeAll, RunAll, Given, OnTheWire, Complete;
    CompleteWire(RunAll(a).log);
    AlikeCarries(None, Given(a), OnTheWire(a), ms);
  }

  /** A server understands every client, whether that masks or not. */
  lemma ClientToServer(a: seq<Event>, b: seq<Event>, ms: seq<Whole>, cfg: ReadConfig, limit: usize)
    requires Serving(cfg) && Writes(a, limit)
    requires Carries(None, Given(a), ms) && forall m :: m in ms ==> Fits(m, limit)
    ensures var results := Expected(cfg, OnTheWire(a), ms);
            && CollectMany(cfg, limit, false, NEW_STATE, WireOf(RunAll(a + b).log), |results|).results == results
            && WithoutPongs(results) == DeliveredAll(ms)
  {
    assert Understands(cfg, OnTheWire(a));
    hide *;
    SenderToReader(a, b, ms, cfg, limit);
  }

  /** A client understands a server, which does not mask. */
  lemma ServerToClient(a: seq<Event>, b: seq<Event>, ms: seq<Whole>, cfg: ReadConfig, limit: usize)
    requires ReadingAsClient(cfg) && Writes(a, limit) && forall i :: 0 <= i < |a| ==> a[i].w.role.Server?
    requires Carries(None, Given(a), ms) && forall m :: m in ms ==> Fits(m, limit)
    ensures var results := Expected(cfg, OnTheWire(a), ms);
            && CollectMany(cfg, limit, false, NEW_STATE, WireOf(RunAll(a + b).log), |results|).results == results
            && WithoutPongs(results) == DeliveredAll(ms)
  {
    ServersDoNotMask(a, limit);
    assert Understands(cfg, OnTheWire(a));
    hide *;
    SenderToReader(a, b, ms, cfg, limit);
  }

  lemma {:induction false} ServersDoNotMask(evs: seq<Event>, limit: nat)
    requires Writes(evs, limit) && forall i :: 0 <= i < |evs| ==> evs[i].w.role.Server?
    ensures forall f :: f in OnTheWire(evs) ==> f.mask == None
    decreases |evs|
  {
    if evs != [] {
      var last := evs[|evs| - 1];
      assert Reaches(last, limit) && last.w.role.Server?;
      hide React, Encode;
      ServersDoNotMask(evs[..|evs| - 1], limit);
    }
  }

  /** The application on one side reading what the other has written, or as much of it as the transport yields. */
  method ReadPeer(sender: WebSocket, reader: FragmentCollector, ghost a: seq<Event>, ghost b: seq<Event>,
                  ghost ms: seq<Whole>, n: nat)
    returns (results: seq<Result<Frame, Error>>, ok: bool)
    requires sender.Valid() && sender.history == a + b
    requires reader.Valid() && !reader.ws.writeHalf.closed && reader.fragments.Now() == NEW_STATE
    requires sender.stream.wire == sender.base + reader.Ahead()
    requires Understands(reader.ws.readHalf.Config(), OnTheWire(a)) && Writes(a, reader.ws.readHalf.maxMessageSize)
    requires Carries(None, Given(a), ms) && forall m :: m in ms ==> Fits(m, reader.ws.readHalf.maxMessageSize)
    requires n == |Expected(reader.ws.readHalf.Config(), OnTheWire(a), ms)|
    modifies reader.ws`history, reader.ws.readHalf`buffer, reader.ws.stream, reader.ws.writeHalf`closed,
             reader.ws.writeHalf`writeBuffer, reader.fragments
    ensures reader.Valid() && reader.ws.readHalf.Config() == old(reader.ws.readHalf.Config())
    ensures reader.ws.stream.failures == old(reader.ws.stream.failures) + if ok then 0 else 1
    ensures if ok then results == Expected(reader.ws.readHalf.Config(), OnTheWire(a), ms)
            else results < Expected(reader.ws.readHalf.Config(), OnTheWire(a), ms)
    ensures ok ==> WithoutPongs(results) == DeliveredAll(ms)
  {
    ghost var cfg, limit := reader.ws.readHalf.Config(), reader.ws.readHalf.maxMessageSize;
    SenderToReader(a, b, ms, cfg, limit);
    SameTail(sender.stream.wire, sender.base, WireOf(RunAll(sender.history).log), reader.Ahead());
    hide Carries, Given, OnTheWire, Writes, Expected, CollectMany, WireOf, RunFrom, Inv, WithoutPongs, DeliveredAll,
         Understands;
    results, ok := ReadMany(reader, n);
  }

  lemma SameTail(wire: seq<byte>, base: seq<byte>, a: seq<byte>, b: seq<byte>)
    requires wire == base + a && wire == base + b
    ensures a == b
  {
    assert wire[|base|..] == a && wire[|base|..] == b;
  }
}
