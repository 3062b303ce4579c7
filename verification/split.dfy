/** The split halves (`unstable-split`): reader and writer apart, joined by the application's `send_fn`. */
module SplitHalves {
  import opened Bytes
  import opened Errors
  import opened Frames
  import opened Masking
  import opened Parsing
  import opened Streams
  import opened Endpoints
  import opened Writing
  import opened WebSockets
  import opened Fragmentation
  import opened Reassembly
  import opened Collectors

  // ---------- Runs of the two halves ----------

  /** The write half, and the replies handed to `send_fn` that have not reached it. */
  datatype Split = Split(endpoint: Endpoint, queue: seq<Frame>)

  /**
    The reader handles a frame, the oldest reply reaches the write half, or the application writes. A `send_fn` that
    fails may have taken the reply or not.
   */
  datatype SplitEvent =
    | Receive(frame: Frame, cfg: ReadConfig, taken: bool)
    | Forward(w: WriteConfig, key: Key, room: nat)
    | Submit(frame: Frame, w: WriteConfig, key: Key, room: nat)

  ghost function ReplyTo(ev: SplitEvent): seq<Frame> {
    if ev.Receive? && ev.taken && React(ev.cfg, ev.frame).reply.Some? then [React(ev.cfg, ev.frame).reply.value] else []
  }

  ghost function SplitStep(s: Split, ev: SplitEvent): Split {
    match ev
    case Receive(_, _, _) => s.(queue := s.queue + ReplyTo(ev))
    case Forward(w, key, room) =>
      if s.queue == [] then s
      else Split(Put(s.endpoint, Dressed(w, s.queue[0], key), room, true).endpoint, s.queue[1..])
    case Submit(f, w, key, room) => s.(endpoint := Put(s.endpoint, Dressed(w, f, key), room, false).endpoint)
  }

  ghost function SplitRunFrom(s: Split, evs: seq<SplitEvent>): Split
    decreases |evs|
  {
    if evs == [] then s else SplitStep(SplitRunFrom(s, evs[..|evs| - 1]), evs[|evs| - 1])
  }

  ghost function SplitRun(evs: seq<SplitEvent>): Split {
    SplitRunFrom(Split(FRESH, []), evs)
  }

  /** Close safety under every interleaving. */
  lemma {:induction false} SplitCloseSafety(evs: seq<SplitEvent>)
    ensures Safe(SplitRun(evs).endpoint)
    decreases |evs|
  {
    if evs != [] {
      SplitCloseSafety(evs[..|evs| - 1]);
    }
  }

  /** Once closed, the wire does not change, whatever is still forwarded or submitted. */
  lemma {:induction false} SplitClosedIsFinal(evs: seq<SplitEvent>, more: seq<SplitEvent>)
    requires SplitRun(evs).endpoint.closed
    ensures SplitRun(evs + more).endpoint == SplitRun(evs).endpoint
    decreases |more|
  {
    if more == [] {
      assert evs + more == evs;
    } else {
      assert (evs + more)[..|evs + more| - 1] == evs + more[..|more| - 1];
      SplitClosedIsFinal(evs, more[..|more| - 1]);
    }
  }

  // ---------- Replies reach the wire in order ----------

  /** A reply as the peer reads it. */
  datatype Plain = Plain(opcode: OpCode, payload: seq<byte>)

  function PlainOf(f: Frame): Plain {
    Plain(f.opcode, Unmasked(f).payload)
  }

  function PlainAll(fs: seq<Frame>): seq<Plain> {
    seq(|fs|, i requires 0 <= i < |fs| => PlainOf(fs[i]))
  }

  /** The replies handed to the transport. */
  function AutoReplies(log: seq<Sent>): seq<Plain> {
    if log == [] then []
    else
      var last := log[|log| - 1];
      AutoReplies(log[..|log| - 1]) + if last.auto then [PlainOf(last.frame)] else []
  }

  /** The replies the reader has obliged its caller to send, in order. */
  ghost function Owed(evs: seq<SplitEvent>): seq<Frame>
    decreases |evs|
  {
    if evs == [] then [] else Owed(evs[..|evs| - 1]) + ReplyTo(evs[|evs| - 1])
  }

  lemma DressedPlain(w: WriteConfig, f: Frame, key: Key)
    requires f.mask == None
    ensures PlainOf(Dressed(w, f, key)) == PlainOf(f)
  {
    UnmaskUndoesMask(f, key);
  }

  /** What of the replies owed was handed to the transport and what is queued. */
  ghost predicate Accounted(s: Split, owed: seq<Frame>) {
    && (forall f :: f in s.queue ==> f.mask == None)
    && |s.queue| <= |owed| && s.queue == owed[|owed| - |s.queue|..]
    && (if s.endpoint.closed then AutoReplies(s.endpoint.log) <= PlainAll(owed)
        else AutoReplies(s.endpoint.log) == PlainAll(owed[..|owed| - |s.queue|]))
  }

  lemma AutoReplyPut(e: Endpoint, f: Frame, room: nat, auto: bool)
    requires !e.closed
    ensures AutoReplies(Put(e, f, room, auto).endpoint.log) == AutoReplies(e.log) + if auto then [PlainOf(f)] else []
  {
    var after := Put(e, f, room, auto).endpoint.log;
    assert after[..|after| - 1] == e.log;
  }

  lemma ReceiveAccounted(s: Split, owed: seq<Frame>, ev: SplitEvent)
    requires Accounted(s, owed) && ev.Receive?
    ensures Accounted(SplitStep(s, ev), owed + ReplyTo(ev))
  {
    RepliesAreBare(ev);
    CutEnd(owed, ReplyTo(ev), |owed| - |s.queue|);
    PlainPrefix(owed, ReplyTo(ev));
    hide ReplyTo, PlainAll, AutoReplies;
  }

  lemma RepliesAreBare(ev: SplitEvent)
    requires ev.Receive?
    ensures forall f :: f in ReplyTo(ev) ==> f.mask == None
  {
  }

  lemma CutEnd(a: seq<Frame>, b: seq<Frame>, k: nat)
    requires k <= |a|
    ensures (a + b)[k..] == a[k..] + b && (a + b)[..k] == a[..k]
  {
  }

  lemma PlainPrefix(a: seq<Frame>, b: seq<Frame>)
    ensures PlainAll(a) <= PlainAll(a + b)
  {
    hide PlainOf;
  }

  lemma ForwardAccounted(s: Split, owed: seq<Frame>, ev: SplitEvent)
    requires Accounted(s, owed) && ev.Forward? && s.queue != []
    ensures Accounted(SplitStep(s, ev), owed)
  {
    hide Encode, Dressed, Unmasked;
    var f, k := s.queue[0], |owed| - |s.queue|;
    assert f in s.queue && f == owed[k];
    assert owed[k + 1..] == s.queue[1..];
    if !s.endpoint.closed {
      DressedPlain(ev.w, f, ev.key);
      AutoReplyPut(s.endpoint, Dressed(ev.w, f, ev.key), ev.room, true);
      assert PlainAll(owed[..k + 1]) == PlainAll(owed[..k]) + [PlainOf(f)];
      assert PlainAll(owed[..k + 1]) <= PlainAll(owed);
    }
  }

  lemma SubmitAccounted(s: Split, owed: seq<Frame>, ev: SplitEvent)
    requires Accounted(s, owed) && ev.Submit?
    ensures Accounted(SplitStep(s, ev), owed)
  {
    if !s.endpoint.closed {
      AutoReplyPut(s.endpoint, Dressed(ev.w, ev.frame, ev.key), ev.room, false);
      assert PlainAll(owed[..|owed| - |s.queue|]) <= PlainAll(owed);
    }
  }

  lemma {:induction false} SplitAccounted(evs: seq<SplitEvent>)
    ensures Accounted(SplitRun(evs), Owed(evs))
    decreases |evs|
  {
    if evs != [] {
      var init, last := evs[..|evs| - 1], evs[|evs| - 1];
      SplitAccounted(init);
      assert Owed(init) + [] == Owed(init);
      if last.Receive? {
        ReceiveAccounted(SplitRun(init), Owed(init), last);
      } else if last.Submit? {
        SubmitAccounted(SplitRun(init), Owed(init), last);
      } else if SplitRun(init).queue != [] {
        ForwardAccounted(SplitRun(init), Owed(init), last);
      }
    }
  }

  /**
    Under every interleaving the replies handed to the transport are a beginning of those owed, in order and without
    repetition; while the connection is open exactly those are missing that are still queued.
   */
  lemma RepliesInOrder(evs: seq<SplitEvent>)
    ensures var s := SplitRun(evs);
            && AutoReplies(s.endpoint.log) <= PlainAll(Owed(evs))
            && (!s.endpoint.closed ==> |AutoReplies(s.endpoint.log)| + |s.queue| == |Owed(evs)|)
  {
    SplitAccounted(evs);
  }

  // ---------- Prompt forwarding ----------

  /** The split events for one joint event when every reply reaches the write half at once. */
  function Prompt(ev: Event): seq<SplitEvent> {
    match ev
    case AppWrite(f, w, key, room) => [Submit(f, w, key, room)]
    case Receipt(f, cfg, w, key, room) => [Receive(f, cfg, true), Forward(w, key, room)]
  }

  function Promptly(evs: seq<Event>): seq<SplitEvent> {
    if evs == [] then [] else Promptly(evs[..|evs| - 1]) + Prompt(evs[|evs| - 1])
  }

  lemma {:induction false} SplitRunConcat(s: Split, a: seq<SplitEvent>, b: seq<SplitEvent>)
    ensures SplitRunFrom(s, a + b) == SplitRunFrom(SplitRunFrom(s, a), b)
    decreases |b|
  {
    hide SplitStep;
    if b == [] {
      assert a + b == a;
    } else {
      assert (a + b)[..|a + b| - 1] == a + b[..|b| - 1];
      SplitRunConcat(s, a, b[..|b| - 1]);
    }
  }

  lemma SplitRunOne(s: Split, ev: SplitEvent)
    ensures SplitRunFrom(s, [ev]) == SplitStep(s, ev)
  {
    hide SplitStep;
    assert [ev][..0] == [];
    assert SplitRunFrom(s, []) == s;
  }

  /** What the events for one joint event do to an empty queue. */
  lemma PromptStep(e: Endpoint, ev: Event)
    ensures SplitRunFrom(Split(e, []), Prompt(ev)) == Split(Step(e, ev), [])
  {
    var now := Prompt(ev);
    SplitRunOne(Split(e, []), now[0]);
    if ev.Receipt? {
      SplitRunConcat(Split(e, []), [now[0]], [now[1]]);
      ReceiveThenForward(e, ev);
      SplitRunOne(SplitStep(Split(e, []), now[0]), now[1]);
    }
  }

  lemma ReceiveThenForward(e: Endpoint, ev: Event)
    requires ev.Receipt?
    ensures SplitStep(SplitStep(Split(e, []), Prompt(ev)[0]), Prompt(ev)[1]) == Split(Step(e, ev), [])
    ensures Prompt(ev) == [Prompt(ev)[0]] + [Prompt(ev)[1]]
  {
    hide React, Encode;
    var reply := ReplyTo(Prompt(ev)[0]);
    assert [] + reply == reply;
  }

  /**
    With a `send_fn` that forwards at once the write half is that of the joint connection and no reply is left over.
    What the reader returns is another matter once the connection is closed, which it does not see.
   */
  lemma {:induction false} PromptRefinesJoint(evs: seq<Event>)
    ensures SplitRun(Promptly(evs)) == Split(RunAll(evs), [])
    decreases |evs|
  {
    hide Step, Prompt;
    if evs != [] {
      var init, last := evs[..|evs| - 1], evs[|evs| - 1];
      PromptRefinesJoint(init);
      PromptStep(RunAll(init), last);
      SplitRunConcat(Split(FRESH, []), Promptly(init), Prompt(last));
    }
  }

  // ---------- The application between the halves ----------

  /** The application's `send_fn` and what it holds: takes a reply, or fails. */
  class Outbox {
    var queue: seq<Frame>
    /** How many calls have failed. */
    ghost var failures: nat

    constructor ()
      ensures queue == [] && failures == 0
    {
      queue, failures := [], 0;
    }

    method Send(f: Frame) returns (ok: bool, ghost taken: bool)
      modifies this
      ensures queue == old(queue) + (if taken then [f] else []) && (ok ==> taken)
      ensures failures == old(failures) + if ok then 0 else 1
    {
      ok := *;
      var t: bool := *;
      taken := ok || t;
      if ok || t {
        queue := queue + [f];
      }
      failures := failures + if ok then 0 else 1;
    }

    method Oldest() returns (f: Frame)
      requires queue != []
      modifies this`queue
      ensures [f] + queue == old(queue)
    {
      f := queue[0];
      queue := queue[1..];
    }
  }

  // ---------- The read half of a split connection ----------

  predicate Broken(done: Option<Result<Frame, Error>>) {
    done == Some(Failure(IoError)) || done == Some(Failure(SendError))
  }

  /** The reader handles these frames; `taken` tells whether `send_fn` took the reply to the last one. */
  function Handling(cfg: ReadConfig, fs: seq<Frame>, taken: bool): seq<SplitEvent> {
    if fs == [] then [] else Handling(cfg, fs[..|fs| - 1], true) + [Receive(fs[|fs| - 1], cfg, taken)]
  }

  lemma OwedByOne(cfg: ReadConfig, f: Frame, taken: bool)
    ensures Owed(Handling(cfg, [f], taken)) == ReplyTo(Receive(f, cfg, taken))
  {
    hide ReplyTo;
    assert [f][..0] == [];
    assert Handling(cfg, [f], taken) == [] + [Receive(f, cfg, taken)];
    assert Owed([]) + ReplyTo(Receive(f, cfg, taken)) == ReplyTo(Receive(f, cfg, taken));
  }

  /** What the reader hands over adds up over its passes. */
  lemma OwedMore(cfg: ReadConfig, fs: seq<Frame>, f: Frame, taken: bool)
    ensures Owed(Handling(cfg, fs + [f], taken)) ==
            Owed(Handling(cfg, fs, true)) + Owed(Handling(cfg, [f], taken))
  {
    hide ReplyTo;
    var ev := Receive(f, cfg, taken);
    assert (fs + [f])[..|fs + [f]| - 1] == fs;
    var evs := Handling(cfg, fs, true);
    assert (evs + [ev])[..|evs + [ev]| - 1] == evs;
    OwedByOne(cfg, f, taken);
  }

  /** The reader's events only lengthen the queue, by what `send_fn` was handed. */
  lemma {:induction false} ReceivesLengthenQueue(s: Split, cfg: ReadConfig, fs: seq<Frame>, taken: bool)
    ensures SplitRunFrom(s, Handling(cfg, fs, taken)) == s.(queue := s.queue + Owed(Handling(cfg, fs, taken)))
    decreases |fs|
  {
    hide ReplyTo;
    if fs == [] {
      assert s.queue + [] == s.queue;
    } else {
      var before, ev := Handling(cfg, fs[..|fs| - 1], true), Receive(fs[|fs| - 1], cfg, taken);
      ReceivesLengthenQueue(s, cfg, fs[..|fs| - 1], true);
      assert (before + [ev])[..|before + [ev]| - 1] == before;
      Assoc(s.queue, Owed(before), ReplyTo(ev));
    }
  }

  /** A pass has taken no frame, or the one parsed. */
  ghost predicate SplitTook(p: Parsed, got: seq<Frame>, left: seq<byte>) {
    got != [] ==> p.Got? && got == [p.frame] && left == p.rest
  }

  /** What is left and the result are those of a pass on an open connection. */
  ghost predicate SplitPassed(p: Parsed, cfg: ReadConfig, done: Option<Result<Frame, Error>>, left: seq<byte>) {
    Passed(p, cfg, false, done, ReadPass(cfg, false, p).closed, left)
  }

  function FrameOf(p: Parsed): seq<Frame> {
    if p.Got? then [p.frame] else []
  }

  /** The frame of a pass, the reply it obliges and the result. */
  lemma HandlingOfPass(cfg: ReadConfig, p: Parsed, res: Result<Option<Frame>, Error>, obligated: Option<Frame>,
                       left: seq<byte>)
    requires Reaction(res, obligated) == ReactTo(cfg, p) && left == p.rest
    requires p.Failed? ==> p.error !in {SendError, IoError}
    ensures SplitPassed(p, cfg, PassResult(false, res), left) && SplitTook(p, FrameOf(p), left)
    ensures !Broken(PassResult(false, res)) && (obligated.Some? ==> ReactTo(cfg, p).reply.Some?)
    ensures PassResult(false, res).None? || PassResult(false, res).value.Success? || obligated.Some? ==>
      FrameOf(p) != []
    ensures Owed(Handling(cfg, FrameOf(p), true)) == if obligated.Some? then [obligated.value] else []
    ensures Owed(Handling(cfg, FrameOf(p), false)) == []
  {
    if p.Got? {
      OwedByOne(cfg, p.frame, true);
      OwedByOne(cfg, p.frame, false);
    }
  }

  /** A Close is answered in the last pass only. */
  lemma OpenUntilLast(p: Parsed, cfg: ReadConfig, done: Option<Result<Frame, Error>>, left: seq<byte>)
    requires SplitPassed(p, cfg, done, left) && done.None?
    ensures Passed(p, cfg, false, done, false, left)
  {
  }

  lemma TookOneMore(input: seq<byte>, limit: usize, fs: seq<Frame>, mid: seq<byte>, got: seq<Frame>, left: seq<byte>)
    requires Took(input, limit, fs, mid) && SplitTook(Parse(mid, limit), got, left)
    ensures Took(input, limit, fs + got, if got == [] then mid else left)
  {
    hide Parse, Took;
    if got == [] {
      assert fs + got == fs;
    } else {
      TookOne(input, limit, fs, mid, got[0], left);
    }
  }

  class WebSocketRead {
    const stream: Stream
    const readHalf: ReadHalf

    constructor (stream: Stream, role: Role)
      ensures this.stream == stream && fresh(readHalf) && readHalf.Config() == ReadConfig(role, true, true, true)
      ensures readHalf.maxMessageSize == 0x400_0000 && Ahead() == stream.unread
    {
      this.stream := stream;
      readHalf := new ReadHalf(role);
      new;
      assert [] + stream.unread == stream.unread;
    }

    ghost function Ahead(): seq<byte>
      reads readHalf, stream
    {
      readHalf.Ahead(stream)
    }

    /** One pass of the loop of `read_frame`. */
    method OnePass(sendFn: Outbox)
      returns (done: Option<Result<Frame, Error>>, ghost got: seq<Frame>, ghost taken: bool)
      modifies readHalf`buffer, stream`unread, stream`failures, sendFn
      ensures readHalf.Config() == old(readHalf.Config())
      ensures stream.failures == old(stream.failures) + if done == Some(Failure(IoError)) then 1 else 0
      ensures sendFn.failures == old(sendFn.failures) + if done == Some(Failure(SendError)) then 1 else 0
      ensures sendFn.queue == old(sendFn.queue) + Owed(Handling(readHalf.Config(), got, taken))
      ensures SplitTook(Parse(old(Ahead()), readHalf.maxMessageSize), got, Ahead())
      ensures done.None? || done.value.Success? || done.value.error == SendError ==> got != []
      ensures !taken ==> done == Some(Failure(SendError))
      ensures done == Some(Failure(IoError)) ==> got == [] && CutShort(old(Ahead()), Ahead())
      ensures done == Some(Failure(SendError)) ==>
        ReactTo(readHalf.Config(), Parse(old(Ahead()), readHalf.maxMessageSize)).reply.Some?
      ensures !Broken(done) ==>
        SplitPassed(Parse(old(Ahead()), readHalf.maxMessageSize), readHalf.Config(), done, Ahead())
    {
      ghost var cfg, p, queue := readHalf.Config(), Parse(Ahead(), readHalf.maxMessageSize), sendFn.queue;
      assert Owed(Handling(cfg, [], true)) == [];
      ParseErrors(Ahead(), readHalf.maxMessageSize);
      hide Parse, Owed, Handling, SplitPassed, CutShort, PassResult, ReactTo;
      var res, obligated := readHalf.ReadFrameInner(stream);
      got, taken := [], true;
      if res == Failure(IoError) {
        return Some(Failure(IoError)), got, taken;
      }
      HandlingOfPass(cfg, p, res, obligated, Ahead());
      got := FrameOf(p);
      if obligated.Some? {
        var ok;
        ok, taken := sendFn.Send(obligated.value);
        if !ok {
          return Some(Failure(SendError)), got, taken;
        }
      }
      done := PassResult(false, res);
    }

    /**
      `read_frame`: `fs` are the frames it took and `mid` what was ahead after them; `taken` tells whether `send_fn`
      took the last reply.
     */
    method ReadFrame(sendFn: Outbox)
      returns (r: Result<Frame, Error>, ghost fs: seq<Frame>, ghost mid: seq<byte>, ghost taken: bool)
      modifies readHalf`buffer, stream`unread, stream`failures, sendFn
      ensures readHalf.Config() == old(readHalf.Config())
      ensures stream.failures == old(stream.failures) + if r == Failure(IoError) then 1 else 0
      ensures sendFn.failures == old(sendFn.failures) + if r == Failure(SendError) then 1 else 0
      ensures sendFn.queue == old(sendFn.queue) + Owed(Handling(readHalf.Config(), fs, taken))
      ensures Took(old(Ahead()), readHalf.maxMessageSize, fs, mid)
      ensures !taken ==> r == Failure(SendError)
      ensures r == Failure(SendError) ==> fs != [] && Ahead() == mid
      ensures r == Failure(IoError) ==> CutShort(mid, Ahead())
      ensures !Broken(Some(r)) ==>
        var c := Read(readHalf.Config(), readHalf.maxMessageSize, false, old(Ahead()));
        r == c.result && Ahead() == c.rest
    {
      ghost var cfg, limit, input := readHalf.Config(), readHalf.maxMessageSize, Ahead();
      ghost var goal := Read(cfg, limit, false, input);
      fs, mid, taken := [], input, true;
      assert sendFn.queue == sendFn.queue + Owed(Handling(cfg, fs, taken)) && Took(input, limit, fs, mid);
      hide Read, Parse, ReadPass, Took, Owed, Handling, SplitPassed, SplitTook;
      while true
        invariant readHalf.Config() == cfg && readHalf.maxMessageSize == limit
        invariant sendFn.queue == old(sendFn.queue) + Owed(Handling(cfg, fs, true))
        invariant Underway(cfg, limit, goal, false, mid)
        invariant Took(input, limit, fs, mid) && mid == Ahead()
        invariant stream.failures == old(stream.failures) && sendFn.failures == old(sendFn.failures)
        decreases |mid|
      {
        ghost var got;
        var done;
        done, got, taken := OnePass(sendFn);
        TookOneMore(input, limit, fs, mid, got, Ahead());
        SplitAdvances(cfg, limit, goal, mid, done, Ahead());
        HandedOver(old(sendFn.queue), cfg, fs, Parse(mid, limit), got, taken, Ahead());
        fs, mid := fs + got, if got == [] then mid else Ahead();
        if done.Some? {
          return done.value, fs, mid, taken;
        }
      }
    }
  }

  lemma SplitAdvances(cfg: ReadConfig, limit: usize, goal: Reading, ahead: seq<byte>,
                      done: Option<Result<Frame, Error>>, left: seq<byte>)
    requires Underway(cfg, limit, goal, false, ahead)
    requires !Broken(done) ==> SplitPassed(Parse(ahead, limit), cfg, done, left)
    ensures done.None? ==> Underway(cfg, limit, goal, false, left) && |left| < |ahead|
    ensures done.Some? && !Broken(done) ==> goal.result == done.value && goal.rest == left
  {
    hide Parse;
    if done.None? {
      OpenUntilLast(Parse(ahead, limit), cfg, done, left);
      PassAdvances(cfg, limit, goal, false, ahead, done, false, left);
    } else if !Broken(done) {
      PassAdvances(cfg, limit, goal, false, ahead, done, ReadPass(cfg, false, Parse(ahead, limit)).closed, left);
    }
  }

  lemma HandedOver(queue: seq<Frame>, cfg: ReadConfig, fs: seq<Frame>, p: Parsed, got: seq<Frame>, taken: bool,
                   left: seq<byte>)
    requires SplitTook(p, got, left)
    ensures queue + Owed(Handling(cfg, fs, true)) + Owed(Handling(cfg, got, taken)) ==
            queue + Owed(Handling(cfg, fs + got, got == [] || taken))
  {
    if got == [] {
      assert fs + got == fs;
    } else {
      OwedMore(cfg, fs, got[0], taken);
      Assoc(queue, Owed(Handling(cfg, fs, true)), Owed(Handling(cfg, got, taken)));
    }
  }

  // ---------- The collector over it ----------

  /** What a turn makes of a parse. */
  ghost predicate SplitTookTurn(cfg: ReadConfig, limit: usize, s: State, p: Parsed, done: Option<Result<Frame, Error>>,
                              after: State, left: seq<byte>)
  {
    TookTurn(cfg, limit, false, s, p, done, ReadPass(cfg, false, p).closed, after, left)
  }

  /** The assembly was reached by these frames. */
  ghost predicate AssembledFrom(cfg: ReadConfig, limit: usize, s: State, fs: seq<Frame>, now: State) {
    HandleAll(cfg, limit, false, s, fs).assembly == now
  }

  /** What a turn makes of the bytes ahead and of the assembly, on every exit. */
  ghost predicate TurnMade(cfg: ReadConfig, limit: usize, input: seq<byte>, s: State,
                           done: Option<Result<Frame, Error>>, got: seq<Frame>, next: State, left: seq<byte>)
  {
    var p := Parse(input, limit);
    && SplitTook(p, got, left) && Assembled(p, cfg, limit, false, s, got, next)
    && (done.None? || done == Some(Failure(SendError)) ==> got != [])
    && (done == Some(Failure(IoError)) ==> got == [] && CutShort(input, left))
    && (!Broken(done) ==> SplitTookTurn(cfg, limit, s, p, done, next, left))
  }

  /** Where a loop stands: what it will return, the frames it has taken and what they have led to. */
  ghost predicate SplitHalfway(cfg: ReadConfig, limit: usize, start: State, input: seq<byte>, goal: Collected,
                               fs: seq<Frame>, mid: seq<byte>, s: State)
  {
    && Collecting(cfg, limit, goal, false, s, mid) && Took(input, limit, fs, mid)
    && LeadsTo(cfg, limit, false, start, fs, false, s)
  }

  lemma NothingTaken(cfg: ReadConfig, limit: usize, s: State, input: seq<byte>)
    ensures SplitHalfway(cfg, limit, s, input, Collect(cfg, limit, false, s, input), [], input, s)
  {
  }

  lemma SplitTurnMore(cfg: ReadConfig, limit: usize, start: State, input: seq<byte>, goal: Collected, fs: seq<Frame>,
                      mid: seq<byte>, s: State, done: Option<Result<Frame, Error>>, got: seq<Frame>, next: State,
                      left: seq<byte>)
    requires SplitHalfway(cfg, limit, start, input, goal, fs, mid, s)
    requires TurnMade(cfg, limit, mid, s, done, got, next, left) && MayReturn(done, limit)
    ensures done.Some? && done.value.Success? ==> Deliverable(done.value.value, limit)
    ensures Took(input, limit, fs + got, if got == [] then mid else left)
    ensures AssembledFrom(cfg, limit, start, fs + got, next) && SplitTook(Parse(mid, limit), got, left)
    ensures done.None? || done == Some(Failure(SendError)) ==> got != []
    ensures done == Some(Failure(IoError)) ==> got == [] && CutShort(mid, left)
    ensures done.None? ==> SplitHalfway(cfg, limit, start, input, goal, fs + got, left, next) && |left| < |mid|
    ensures done.Some? && !Broken(done) ==> goal.result == done.value && goal.assembly == next && goal.rest == left
  {
    hide Parse, Took, LeadsTo, Collecting, Assembled, SplitTookTurn, SplitTook, CutShort, AssembledFrom, Deliverable;
    TookOneMore(input, limit, fs, mid, got, left);
    SplitTurnAdvances(cfg, limit, goal, s, mid, done, next, left);
    SplitLeadsFurther(cfg, limit, start, fs, s, Parse(mid, limit), done, got, next, left);
  }

  class FragmentCollectorRead {
    /** The stream and the read half taken over from the `WebSocketRead`. */
    const ws: WebSocketRead
    const fragments: Fragments

    constructor (ws: WebSocketRead)
      ensures this.ws == ws && fresh(fragments) && fragments.Now() == NEW_STATE && Valid()
    {
      this.ws := ws;
      fragments := new Fragments();
    }

    ghost predicate Valid()
      reads ws.readHalf, fragments
    {
      Inv(fragments.Now(), ws.readHalf.maxMessageSize)
    }

    /** One pass of the loop of `read_frame`. */
    method OneTurn(sendFn: Outbox)
      returns (done: Option<Result<Frame, Error>>, ghost got: seq<Frame>, ghost taken: bool)
      requires Valid()
      modifies ws.readHalf`buffer, ws.stream`unread, ws.stream`failures, sendFn, fragments
      ensures ws.readHalf.Config() == old(ws.readHalf.Config())
      ensures ws.stream.failures == old(ws.stream.failures) + if done == Some(Failure(IoError)) then 1 else 0
      ensures sendFn.failures == old(sendFn.failures) + if done == Some(Failure(SendError)) then 1 else 0
      ensures Valid() && MayReturn(done, ws.readHalf.maxMessageSize)
      ensures sendFn.queue == old(sendFn.queue) + Owed(Handling(ws.readHalf.Config(), got, taken))
      ensures !taken ==> done == Some(Failure(SendError))
      ensures TurnMade(ws.readHalf.Config(), ws.readHalf.maxMessageSize, old(ws.Ahead()), old(fragments.Now()), done,
                       got, fragments.Now(), ws.Ahead())
    {
      ghost var cfg, limit, s := ws.readHalf.Config(), ws.readHalf.maxMessageSize, fragments.Now();
      ghost var input := ws.Ahead();
      hide Parse, Inv, Gather, WellFormed, TurnMade, SplitPassed, SplitTook, Owed, Handling, CutShort, Deliverable;
      var found;
      found, got, taken := ws.OnePass(sendFn);
      SplitGather(cfg, limit, s, input, found, got, ws.Ahead());
      done := GatherInto(fragments, found, ws.readHalf.maxMessageSize);
    }

    /** `read_frame`, as for `WebSocketRead` and with the assembly. */
    method ReadFrame(sendFn: Outbox)
      returns (r: Result<Frame, Error>, ghost fs: seq<Frame>, ghost mid: seq<byte>, ghost taken: bool)
      requires Valid()
      modifies ws.readHalf`buffer, ws.stream`unread, ws.stream`failures, sendFn, fragments
      ensures ws.readHalf.Config() == old(ws.readHalf.Config())
      ensures ws.stream.failures == old(ws.stream.failures) + if r == Failure(IoError) then 1 else 0
      ensures sendFn.failures == old(sendFn.failures) + if r == Failure(SendError) then 1 else 0
      ensures Valid() && (r.Success? ==> Deliverable(r.value, ws.readHalf.maxMessageSize))
      ensures sendFn.queue == old(sendFn.queue) + Owed(Handling(ws.readHalf.Config(), fs, taken))
      ensures Took(old(ws.Ahead()), ws.readHalf.maxMessageSize, fs, mid)
      ensures AssembledFrom(ws.readHalf.Config(), ws.readHalf.maxMessageSize, old(fragments.Now()), fs,
                            fragments.Now())
      ensures !taken ==> r == Failure(SendError)
      ensures r == Failure(SendError) ==> fs != [] && ws.Ahead() == mid
      ensures r == Failure(IoError) ==> CutShort(mid, ws.Ahead())
      ensures !Broken(Some(r)) ==>
        var c := Collect(ws.readHalf.Config(), ws.readHalf.maxMessageSize, false, old(fragments.Now()),
                         old(ws.Ahead()));
        r == c.result && fragments.Now() == c.assembly && ws.Ahead() == c.rest
    {
      ghost var cfg, limit, input := ws.readHalf.Config(), ws.readHalf.maxMessageSize, ws.Ahead();
      ghost var start := fragments.Now();
      assert sendFn.queue == sendFn.queue + Owed(Handling(cfg, [], true));
      hide *;
      ghost var goal := Collect(cfg, limit, false, start, input);
      fs, mid, taken := [], input, true;
      NothingTaken(cfg, limit, start, input);
      while true
        invariant Valid()
        invariant ws.readHalf.Config() == cfg && ws.readHalf.maxMessageSize == limit
        invariant sendFn.queue == old(sendFn.queue) + Owed(Handling(cfg, fs, true))
        invariant SplitHalfway(cfg, limit, start, input, goal, fs, mid, fragments.Now()) && mid == ws.Ahead()
        invariant ws.stream.failures == old(ws.stream.failures) && sendFn.failures == old(sendFn.failures)
        decreases |mid|
      {
        ghost var s, got := fragments.Now(), [];
        var done;
        done, got, taken := OneTurn(sendFn);
        SplitTurnMore(cfg, limit, start, input, goal, fs, mid, s, done, got, fragments.Now(), ws.Ahead());
        HandedOver(old(sendFn.queue), cfg, fs, Parse(mid, limit), got, taken, ws.Ahead());
        fs, mid := fs + got, if got == [] then mid else ws.Ahead();
        if done.Some? {
          return done.value, fs, mid, taken;
        }
      }
    }
  }

  lemma SplitGather(cfg: ReadConfig, limit: usize, s: State, input: seq<byte>, found: Option<Result<Frame, Error>>,
                    got: seq<Frame>, left: seq<byte>)
    requires SplitTook(Parse(input, limit), got, left)
    requires !Broken(found) ==> SplitPassed(Parse(input, limit), cfg, found, left)
    requires found == Some(Failure(IoError)) ==> got == [] && CutShort(input, left)
    requires found == Some(Failure(SendError)) ==> ReactTo(cfg, Parse(input, limit)).reply.Some?
    requires found.None? || found.value.Success? || found.value.error == SendError ==> got != []
    ensures FoundWellFormed(found, limit)
    ensures var g := Gather(s, found, limit);
            && TurnMade(cfg, limit, input, s, g.done, got, g.assembly, left)
            && (g.done == Some(Failure(IoError)) <==> found == Some(Failure(IoError)))
            && (g.done == Some(Failure(SendError)) <==> found == Some(Failure(SendError)))
  {
    hide Parse, React, Assemble, CutShort;
    var p := Parse(input, limit);
    var closed := ReadPass(cfg, false, p).closed;
    GatherErrors(s, found, limit);
    if !Broken(found) {
      PassFound(cfg, limit, false, input, found, closed, left);
      PassThenGather(cfg, limit, false, s, p, found, closed, left);
    }
    AssembledBy(p, cfg, limit, false, s, found, got, closed, left);
  }

  lemma SplitTurnAdvances(cfg: ReadConfig, limit: usize, goal: Collected, s: State, ahead: seq<byte>,
                          done: Option<Result<Frame, Error>>, next: State, left: seq<byte>)
    requires Collecting(cfg, limit, goal, false, s, ahead)
    requires !Broken(done) ==> SplitTookTurn(cfg, limit, s, Parse(ahead, limit), done, next, left)
    ensures done.None? ==> Collecting(cfg, limit, goal, false, next, left) && |left| < |ahead|
    ensures done.Some? && !Broken(done) ==> goal.result == done.value && goal.assembly == next && goal.rest == left
  {
    hide Parse;
    if !Broken(done) {
      var p := Parse(ahead, limit);
      OpenWhileCollecting(cfg, limit, s, p);
      TurnAdvances(cfg, limit, goal, false, s, ahead, done, ReadPass(cfg, false, p).closed, next, left);
    }
  }

  /** A Close is answered in the last turn only. */
  lemma OpenWhileCollecting(cfg: ReadConfig, limit: usize, s: State, p: Parsed)
    ensures CollectPass(cfg, limit, false, s, p).done.None? ==> !ReadPass(cfg, false, p).closed
  {
  }

  lemma SplitLeadsFurther(cfg: ReadConfig, limit: usize, start: State, fs: seq<Frame>, s: State, p: Parsed,
                          done: Option<Result<Frame, Error>>, got: seq<Frame>, next: State, left: seq<byte>)
    requires LeadsTo(cfg, limit, false, start, fs, false, s)
    requires Assembled(p, cfg, limit, false, s, got, next)
    requires !Broken(done) ==> SplitTookTurn(cfg, limit, s, p, done, next, left)
    ensures AssembledFrom(cfg, limit, start, fs + got, next)
    ensures done.None? ==> LeadsTo(cfg, limit, false, start, fs + got, false, next)
  {
    var closed := got != [] && ReadPass(cfg, false, p).closed;
    OpenWhileCollecting(cfg, limit, s, p);
    LeadsFurther(cfg, limit, false, start, fs, false, s, p, got, closed, next);
  }

  // ---------- The write half ----------

  lemma WritePut(e: Endpoint, base: seq<byte>, wire: seq<byte>, f: Frame, room: nat, auto: bool, after: bool,
                 wireAfter: seq<byte>)
    requires Safe(e) && wire == base + WireOf(e.log) && Wrote(e.closed, wire, f, room, auto, after, wireAfter)
    ensures var next := Put(e, f, room, auto).endpoint;
            Safe(next) && after == next.closed && wireAfter == base + WireOf(next.log)
    ensures Put(e, f, room, auto).result == Put(Endpoint(e.closed, []), f, room, auto).result
  {
    PutKeepsSafe(e, f, room, auto);
    WireOfPut(e, f, room, auto);
    hide Put, WireOf, Safe;
    Assoc(base, WireOf(e.log), WireOf(Put(Endpoint(e.closed, []), f, room, auto).endpoint.log));
  }

  lemma PutKeepsSafe(e: Endpoint, f: Frame, room: nat, auto: bool)
    requires Safe(e)
    ensures Safe(Put(e, f, room, auto).endpoint)
  {
    hide Encode;
  }

  class WebSocketWrite {
    const stream: Stream
    const writeHalf: WriteHalf
    ghost const base: seq<byte>
    /** What this half has put on the wire since the handshake. */
    ghost var endpoint: Endpoint

    constructor (stream: Stream, role: Role)
      ensures Valid() && endpoint == FRESH && this.stream == stream && base == stream.wire && fresh(writeHalf)
      ensures writeHalf.Config() == WriteConfig(role, true)
    {
      this.stream := stream;
      writeHalf := new WriteHalf(role);
      base := stream.wire;
      endpoint := FRESH;
      new;
      assert stream.wire == stream.wire + WireOf([]);
    }

    ghost predicate Valid()
      reads this, stream, writeHalf
    {
      && Safe(endpoint)
      && writeHalf.closed == endpoint.closed && stream.wire == base + WireOf(endpoint.log)
    }

    /** `write_frame`; `auto` tells the frames that come from `send_fn`. */
    method WriteFrame(frame: Frame, ghost auto: bool) returns (r: Result<(), Error>, ghost key: Key, ghost room: nat)
      requires Valid()
      modifies this`endpoint, stream`wire, stream`failures, writeHalf`closed, writeHalf`writeBuffer
      ensures Valid()
      ensures Written(endpoint, r) == Put(old(endpoint), Dressed(writeHalf.Config(), frame, key), room, auto)
      ensures writeHalf.Config() == old(writeHalf.Config())
      ensures stream.failures == old(stream.failures) + if r == Failure(IoError) then 1 else 0
    {
      hide Put, Dressed, WireOf, Safe;
      r, key, room := writeHalf.WriteFrame(stream, frame, auto);
      ghost var f := Dressed(writeHalf.Config(), frame, key);
      WritePut(endpoint, base, old(stream.wire), f, room, auto, writeHalf.closed, stream.wire);
      endpoint := Put(endpoint, f, room, auto).endpoint;
    }
  }

  // ---------- The application's part ----------

  /** The halves and the replies between them, in the hands of an application, and the run they have made. */
  class SplitConnection {
    const reader: FragmentCollectorRead
    const writer: WebSocketWrite
    const outbox: Outbox
    ghost var history: seq<SplitEvent>

    /** The two halves of the transport are separate objects, each owned by its side. */
    constructor (reader: FragmentCollectorRead, writer: WebSocketWrite)
      requires reader.Valid() && writer.Valid() && writer.endpoint == FRESH && reader.ws.stream != writer.stream
      ensures Valid() && history == [] && this.reader == reader && this.writer == writer && fresh(outbox)
    {
      this.reader, this.writer, history := reader, writer, [];
      outbox := new Outbox();
    }

    /** The write half and the queue are those of the run in `history`. */
    ghost predicate Valid()
      reads this, reader.ws.readHalf, reader.fragments, outbox, writer, writer.stream, writer.writeHalf
    {
      && reader.Valid() && writer.Valid() && reader.ws.stream != writer.stream
      && Split(writer.endpoint, outbox.queue) == SplitRun(history)
    }

    /** Reads a frame: `Receive` steps. */
    method ReadFrame() returns (r: Result<Frame, Error>, ghost fs: seq<Frame>, ghost mid: seq<byte>, ghost taken: bool)
      requires Valid()
      modifies this`history, reader.ws.readHalf`buffer, reader.ws.stream`unread, reader.ws.stream`failures,
               reader.fragments, outbox
      ensures Valid() && (r.Success? ==> Deliverable(r.value, reader.ws.readHalf.maxMessageSize))
      ensures reader.ws.readHalf.Config() == old(reader.ws.readHalf.Config())
      ensures reader.ws.stream.failures == old(reader.ws.stream.failures) + if r == Failure(IoError) then 1 else 0
      ensures outbox.failures == old(outbox.failures) + if r == Failure(SendError) then 1 else 0
      ensures history == old(history) + Handling(reader.ws.readHalf.Config(), fs, taken)
      ensures Took(old(reader.ws.Ahead()), reader.ws.readHalf.maxMessageSize, fs, mid)
      ensures AssembledFrom(reader.ws.readHalf.Config(), reader.ws.readHalf.maxMessageSize,
                            old(reader.fragments.Now()), fs, reader.fragments.Now())
      ensures !taken ==> r == Failure(SendError)
      ensures r == Failure(SendError) ==> fs != [] && reader.ws.Ahead() == mid
      ensures r == Failure(IoError) ==> CutShort(mid, reader.ws.Ahead())
      ensures !Broken(Some(r)) ==>
        var c := Collect(reader.ws.readHalf.Config(), reader.ws.readHalf.maxMessageSize, false,
                         old(reader.fragments.Now()), old(reader.ws.Ahead()));
        r == c.result && reader.fragments.Now() == c.assembly && reader.ws.Ahead() == c.rest
    {
      hide Inv, Deliverable, Took, SplitRun, SplitRunFrom, Owed, Handling, AssembledFrom, Collect, Safe, Broken,
           CutShort;
      r, fs, mid, taken := reader.ReadFrame(outbox);
      RunReceives(history, reader.ws.readHalf.Config(), fs, taken);
      history := history + Handling(reader.ws.readHalf.Config(), fs, taken);
    }

    /** The reading part of a pass: a `Receive` step on an empty queue. */
    method ReceiveTurn(ghost before: seq<Event>)
      returns (done: Option<Result<Frame, Error>>, ghost got: seq<Frame>, ghost taken: bool)
      requires Valid() && history == Promptly(before)
      modifies this`history, reader.ws.readHalf`buffer, reader.ws.stream`unread, reader.ws.stream`failures,
               reader.fragments, outbox
      ensures Valid() && MayReturn(done, reader.ws.readHalf.maxMessageSize)
      ensures reader.ws.readHalf.Config() == old(reader.ws.readHalf.Config())
      ensures writer.writeHalf.Config() == old(writer.writeHalf.Config())
      ensures reader.ws.stream.failures ==
              old(reader.ws.stream.failures) + if done == Some(Failure(IoError)) then 1 else 0
      ensures outbox.failures == old(outbox.failures) + if done == Some(Failure(SendError)) then 1 else 0
      ensures ToSend(history, outbox.queue, writer.endpoint, before, reader.ws.readHalf.Config(), got, taken)
      ensures !taken ==> done == Some(Failure(SendError))
      ensures TurnMade(reader.ws.readHalf.Config(), reader.ws.readHalf.maxMessageSize, old(reader.ws.Ahead()),
                       old(reader.fragments.Now()), done, got, reader.fragments.Now(), reader.ws.Ahead())
    {
      ghost var cfg, limit, input := reader.ws.readHalf.Config(), reader.ws.readHalf.maxMessageSize, reader.ws.Ahead();
      ghost var s := reader.fragments.Now();
      PromptRefinesJoint(before);
      hide Parse, Inv, Safe, WireOf, SplitRun, SplitRunFrom, Owed, Handling, TurnMade, Promptly, Deliverable;
      done, got, taken := reader.OneTurn(outbox);
      TurnReceives(history, cfg, limit, input, s, done, got, taken, reader.fragments.Now(), reader.ws.Ahead());
      history := history + Handling(cfg, got, taken);
    }

    /** One pass of the read loop with a `send_fn` that writes at once; `added` is the receipt it makes. */
    method TurnPromptly(ghost before: seq<Event>)
      returns (done: Option<Result<Frame, Error>>, ghost got: seq<Frame>, ghost taken: bool, ghost added: seq<Event>)
      requires Valid() && history == Promptly(before)
      modifies this`history, reader.ws.readHalf`buffer, reader.ws.stream`unread, reader.ws.stream`failures,
               reader.fragments, outbox, writer`endpoint, writer.stream`wire, writer.stream`failures,
               writer.writeHalf`closed, writer.writeHalf`writeBuffer
      ensures Valid() && reader.ws.readHalf.Config() == old(reader.ws.readHalf.Config())
      ensures writer.writeHalf.Config() == old(writer.writeHalf.Config())
      ensures reader.ws.stream.failures ==
              old(reader.ws.stream.failures) + if done == Some(Failure(IoError)) then 1 else 0
      ensures done == Some(Failure(SendError)) <==>
        outbox.failures > old(outbox.failures) || LastRefused(before, added)
      ensures outbox.failures >= old(outbox.failures)
      ensures taken ==> Split(writer.endpoint, outbox.queue) == Split(RunAll(before + added), [])
      ensures PromptTurn(history, reader.ws.readHalf.Config(), reader.ws.readHalf.maxMessageSize, before,
                         old(reader.ws.Ahead()), old(reader.fragments.Now()), done, got, taken, added,
                         reader.fragments.Now(), reader.ws.Ahead(), writer.writeHalf.Config())
    {
      hide *;
      ghost var cfg, limit, input := reader.ws.readHalf.Config(), reader.ws.readHalf.maxMessageSize, reader.ws.Ahead();
      ghost var s := reader.fragments.Now();
      done, got, taken := ReceiveTurn(before);
      var ok;
      ok, added := SendAtOnce(before, cfg, got, taken);
      TurnEnds(history, cfg, limit, before, input, s, done, got, taken, added, reader.fragments.Now(),
               reader.ws.Ahead(), writer.writeHalf.Config(), ok);
      done := AfterSending(done, ok);
    }

    /**
      `read_frame` with a `send_fn` that writes every reply at once and passes on how that went. `before` is the joint
      run so far and `evs` are the receipts it gets; `fs` are the frames taken, `mid` is what was ahead after them, and
      `taken` tells whether the last reply got as far as the write half.
     */
    method ReadPromptly(ghost before: seq<Event>)
      returns (r: Result<Frame, Error>, ghost evs: seq<Event>, ghost fs: seq<Frame>, ghost mid: seq<byte>,
               ghost taken: bool)
      requires Valid() && history == Promptly(before)
      modifies this`history, reader.ws.readHalf`buffer, reader.ws.stream`unread, reader.ws.stream`failures,
               reader.fragments, outbox, writer`endpoint, writer.stream`wire, writer.stream`failures,
               writer.writeHalf`closed, writer.writeHalf`writeBuffer
      ensures Valid() && reader.ws.readHalf.Config() == old(reader.ws.readHalf.Config())
      ensures writer.writeHalf.Config() == old(writer.writeHalf.Config())
      ensures reader.ws.stream.failures == old(reader.ws.stream.failures) + if r == Failure(IoError) then 1 else 0
      ensures r == Failure(SendError) <==> outbox.failures > old(outbox.failures) || LastRefused(before, evs)
      ensures taken ==> Split(writer.endpoint, outbox.queue) == Split(RunAll(before + evs), [])
      ensures PromptRead(history, reader.ws.readHalf.Config(), reader.ws.readHalf.maxMessageSize, before,
                         old(reader.fragments.Now()), old(reader.ws.Ahead()), r, evs, fs, mid, taken,
                         reader.fragments.Now(), reader.ws.Ahead(), writer.writeHalf.Config())
    {
      hide *;
      ghost var cfg, limit, input := reader.ws.readHalf.Config(), reader.ws.readHalf.maxMessageSize, reader.ws.Ahead();
      ghost var start, w := reader.fragments.Now(), writer.writeHalf.Config();
      ghost var goal := Collect(cfg, limit, false, start, input);
      evs, fs, mid, taken := [], [], input, true;
      PromptBegins(before, cfg, limit, start, input, w);
      while true
        invariant Valid() && taken && mid == reader.ws.Ahead()
        invariant reader.ws.readHalf.Config() == cfg && reader.ws.readHalf.maxMessageSize == limit
        invariant writer.writeHalf.Config() == w && outbox.failures == old(outbox.failures)
        invariant PromptHalfway(history, cfg, limit, before, start, input, evs, fs, mid, reader.fragments.Now(), w)
        invariant reader.ws.stream.failures == old(reader.ws.stream.failures)
        decreases |mid|
      {
        ghost var was, s, got, added := history, reader.fragments.Now(), [], [];
        var done;
        PromptSoFar(history, cfg, limit, before, start, input, evs, fs, mid, s, w);
        done, got, taken, added := TurnPromptly(before + evs);
        Assoc(before, evs, added);
        PromptTurnMore(was, history, cfg, limit, before, start, input, evs, fs, mid, s, w, done, got, taken, added,
                       reader.fragments.Now(), reader.ws.Ahead());
        evs, fs, mid := evs + added, fs + got, if got == [] then mid else reader.ws.Ahead();
        if done.Some? {
          return done.value, evs, fs, mid, taken;
        }
      }
    }

    /** What `send_fn` does with the reply it was handed, if any. */
    method SendAtOnce(ghost before: seq<Event>, ghost cfg: ReadConfig, ghost got: seq<Frame>, ghost taken: bool)
      returns (ok: bool, ghost added: seq<Event>)
      requires Valid() && ToSend(history, outbox.queue, writer.endpoint, before, cfg, got, taken)
      modifies this`history, outbox`queue, writer`endpoint, writer.stream`wire, writer.stream`failures,
               writer.writeHalf`closed, writer.writeHalf`writeBuffer
      ensures Valid() && PromptSteps(history, cfg, before, got, taken, added)
      ensures reader.ws.stream.failures == old(reader.ws.stream.failures)
      ensures reader.ws.Ahead() == old(reader.ws.Ahead()) && reader.fragments.Now() == old(reader.fragments.Now())
      ensures reader.ws.readHalf.Config() == old(reader.ws.readHalf.Config())
      ensures !ok ==> got != []
      ensures ok <==> !LastRefused(before, added)
      ensures taken ==> Split(writer.endpoint, outbox.queue) == Split(RunAll(before + added), [])
      ensures writer.writeHalf.Config() == old(writer.writeHalf.Config())
      ensures WrittenAs(added, writer.writeHalf.Config())
    {
      hide Inv, Safe, Put, Dressed, WireOf, SplitRun, SplitRunFrom, Handling, Promptly, PromptSteps, LastRefused, Owed;
      ghost var queue := outbox.queue;
      ok := true;
      if outbox.queue != [] {
        var r, ev := ForwardOldest();
        added := [Receipt(got[0], cfg, ev.w, ev.key, ev.room)];
        PromptStepsMade(before, cfg, got, ev);
        RefusedOne(before, cfg, got, ev, queue);
        ok := r.Success?;
      } else {
        added := [];
        if got != [] && taken {
          ghost var ev := Forward(writer.writeHalf.Config(), [0, 0, 0, 0], 0);
          RunStep(history, ev);
          history := history + [ev];
          added := [Receipt(got[0], cfg, ev.w, ev.key, ev.room)];
          PromptStepsMade(before, cfg, got, ev);
          RefusedOne(before, cfg, got, ev, queue);
        } else {
          NoPromptSteps(before, cfg, got, taken, writer.writeHalf.Config());
        }
      }
      PromptIsJoint(history, cfg, before, got, taken, added, writer.endpoint, outbox.queue);
    }

    /** Hands the oldest reply to the write half: a `Forward` step. */
    method ForwardOldest() returns (r: Result<(), Error>, ghost ev: SplitEvent)
      requires Valid() && outbox.queue != []
      modifies this`history, outbox`queue, writer`endpoint, writer.stream`wire, writer.stream`failures,
               writer.writeHalf`closed, writer.writeHalf`writeBuffer
      ensures Valid() && history == old(history) + [ev]
      ensures ev.Forward? && ev.w == writer.writeHalf.Config()
      ensures r == Put(old(writer.endpoint), Dressed(ev.w, old(outbox.queue[0]), ev.key), ev.room, true).result
      ensures writer.writeHalf.Config() == old(writer.writeHalf.Config())
      ensures writer.stream.failures == old(writer.stream.failures) + if r == Failure(IoError) then 1 else 0
    {
      hide Inv, SplitRun, SplitRunFrom, Safe, Put, Dressed, WireOf;
      ghost var key, room;
      var f := outbox.Oldest();
      r, key, room := writer.WriteFrame(f, true);
      ev := Forward(writer.writeHalf.Config(), key, room);
      RunStep(history, ev);
      history := history + [ev];
    }

    /** Writes a frame of the application's own: a `Submit` step. */
    method WriteFrame(frame: Frame) returns (r: Result<(), Error>, ghost ev: SplitEvent)
      requires Valid()
      modifies this`history, writer`endpoint, writer.stream`wire, writer.stream`failures, writer.writeHalf`closed,
               writer.writeHalf`writeBuffer
      ensures Valid() && history == old(history) + [ev]
      ensures ev.Submit? && ev.frame == frame && ev.w == writer.writeHalf.Config()
      ensures r == Put(old(writer.endpoint), Dressed(ev.w, frame, ev.key), ev.room, false).result
      ensures writer.writeHalf.Config() == old(writer.writeHalf.Config())
      ensures writer.stream.failures == old(writer.stream.failures) + if r == Failure(IoError) then 1 else 0
    {
      hide Inv, SplitRun, SplitRunFrom, Safe, Put, Dressed, WireOf;
      ghost var key, room;
      r, key, room := writer.WriteFrame(frame, false);
      ev := Submit(frame, writer.writeHalf.Config(), key, room);
      RunStep(history, ev);
      history := history + [ev];
    }
  }

  /** A pass has made its `Receive` step behind the joint run `before`, and its reply is queued. */
  ghost predicate ToSend(history: seq<SplitEvent>, queue: seq<Frame>, endpoint: Endpoint, before: seq<Event>,
                         cfg: ReadConfig, got: seq<Frame>, taken: bool)
  {
    && history == Promptly(before) + Handling(cfg, got, taken)
    && |got| <= 1 && (queue != [] ==> got != [] && taken)
    && endpoint == RunAll(before) && queue == Owed(Handling(cfg, got, taken))
  }

  /** The events of a pass behind those of the joint run `before`: its receipt, or a reply that got lost. */
  ghost predicate PromptSteps(history: seq<SplitEvent>, cfg: ReadConfig, before: seq<Event>, got: seq<Frame>,
                              taken: bool, added: seq<Event>)
  {
    && AreReceipts(added, cfg) && FramesIn(added) == (if taken then got else [])
    && history == Promptly(before + added) + if taken then [] else Handling(cfg, got, false)
  }

  /** The same over several passes, of which only the last may have lost its reply. */
  ghost predicate PromptRun(history: seq<SplitEvent>, cfg: ReadConfig, before: seq<Event>, fs: seq<Frame>,
                            taken: bool, evs: seq<Event>)
  {
    && AreReceipts(evs, cfg) && (taken || fs != [])
    && FramesIn(evs) == (if taken then fs else fs[..|fs| - 1])
    && history == Promptly(before + evs) + if taken then [] else [Receive(fs[|fs| - 1], cfg, false)]
  }

  /**
    What a prompt read makes of the run, the bytes ahead and the assembly: a frame it returns may be delivered, the run
    is the joint one with the receipts of the frames taken, and without failures all is as the joint collector has it.
   */
  ghost predicate PromptRead(history: seq<SplitEvent>, cfg: ReadConfig, limit: usize, before: seq<Event>, start: State,
                             input: seq<byte>, r: Result<Frame, Error>, evs: seq<Event>, fs: seq<Frame>,
                             mid: seq<byte>, taken: bool, next: State, left: seq<byte>, w: WriteConfig)
  {
    && PromptRun(history, cfg, before, fs, taken, evs) && WrittenAs(evs, w)
    && Took(input, limit, fs, mid) && AssembledFrom(cfg, limit, start, fs, next)
    && (r.Success? ==> Deliverable(r.value, limit))
    && (!taken ==> r == Failure(SendError))
    && (r == Failure(SendError) ==> fs != [] && left == mid)
    && (r == Failure(IoError) ==> CutShort(mid, left))
    && (!Broken(Some(r)) ==>
          var c := Collect(cfg, limit, false, start, input);
          r == c.result && next == c.assembly && left == c.rest)
  }

  /** Where the loop of a prompt read stands. */
  ghost predicate PromptHalfway(history: seq<SplitEvent>, cfg: ReadConfig, limit: usize, before: seq<Event>,
                                start: State, input: seq<byte>, evs: seq<Event>, fs: seq<Frame>, mid: seq<byte>,
                                s: State, w: WriteConfig)
  {
    && PromptRun(history, cfg, before, fs, true, evs) && !LastRefused(before, evs) && WrittenAs(evs, w)
    && SplitHalfway(cfg, limit, start, input, Collect(cfg, limit, false, start, input), fs, mid, s)
  }

  lemma PromptBegins(before: seq<Event>, cfg: ReadConfig, limit: usize, s: State, input: seq<byte>, w: WriteConfig)
    ensures PromptHalfway(Promptly(before), cfg, limit, before, s, input, [], [], input, s, w)
  {
    hide SplitHalfway;
    NothingTaken(cfg, limit, s, input);
    assert before + [] == before;
  }

  lemma PromptSoFar(history: seq<SplitEvent>, cfg: ReadConfig, limit: usize, before: seq<Event>, start: State,
                    input: seq<byte>, evs: seq<Event>, fs: seq<Frame>, mid: seq<byte>, s: State, w: WriteConfig)
    requires PromptHalfway(history, cfg, limit, before, start, input, evs, fs, mid, s, w)
    ensures history == Promptly(before + evs)
  {
    assert Promptly(before + evs) + [] == Promptly(before + evs);
  }

  lemma PromptTurnMore(was: seq<SplitEvent>, history: seq<SplitEvent>, cfg: ReadConfig, limit: usize,
                       before: seq<Event>, start: State, input: seq<byte>, evs: seq<Event>, fs: seq<Frame>,
                       mid: seq<byte>, s: State, w: WriteConfig, done: Option<Result<Frame, Error>>, got: seq<Frame>,
                       taken: bool, added: seq<Event>, next: State, left: seq<byte>)
    requires PromptHalfway(was, cfg, limit, before, start, input, evs, fs, mid, s, w)
    requires PromptTurn(history, cfg, limit, before + evs, mid, s, done, got, taken, added, next, left, w)
    requires LastRefused(before + evs, added) ==> done == Some(Failure(SendError))
    ensures LastRefused(before, evs + added) <==> LastRefused(before + evs, added)
    ensures done.None? ==>
      && taken && got != [] && |left| < |mid|
      && PromptHalfway(history, cfg, limit, before, start, input, evs + added, fs + got, left, next, w)
    ensures done.Some? ==>
      PromptRead(history, cfg, limit, before, start, input, done.value, evs + added, fs + got,
                 if got == [] then mid else left, taken, next, left, w)
  {
    hide Parse, SplitHalfway, TurnMade, LastRefused, WrittenAs, PromptSteps, SplitTook, Took, AssembledFrom, CutShort,
         Deliverable, Collect;
    assert AreReceipts(evs, cfg) && FramesIn(evs) == fs;
    SplitTurnMore(cfg, limit, start, input, Collect(cfg, limit, false, start, input), fs, mid, s, done, got, next,
                  left);
    PromptMore(history, cfg, before, fs, evs, Parse(mid, limit), got, taken, added, left);
    RefusedLater(before, evs, added);
    WrittenConcat(evs, added, w);
  }

  lemma PromptMore(history: seq<SplitEvent>, cfg: ReadConfig, before: seq<Event>, fs: seq<Frame>, evs: seq<Event>,
                   p: Parsed, got: seq<Frame>, taken: bool, added: seq<Event>, left: seq<byte>)
    requires AreReceipts(evs, cfg) && FramesIn(evs) == fs && SplitTook(p, got, left) && (taken || got != [])
    requires PromptSteps(history, cfg, before + evs, got, taken, added)
    ensures PromptRun(history, cfg, before, fs + got, taken, evs + added)
  {
    hide Promptly, FramesIn, Handling, AreReceipts;
    FramesInConcat(evs, added);
    ReceiptsConcat(evs, added, cfg);
    Assoc(before, evs, added);
    if !taken {
      HandlingOne(cfg, got, false);
      OneMore(fs, got);
    }
  }

  lemma OneMore(fs: seq<Frame>, got: seq<Frame>)
    requires |got| == 1
    ensures (fs + got)[|fs + got| - 1] == got[0] && (fs + got)[..|fs + got| - 1] == fs && fs + [] == fs
  {
  }

  lemma ReceiptsConcat(a: seq<Event>, b: seq<Event>, cfg: ReadConfig)
    requires AreReceipts(a, cfg) && AreReceipts(b, cfg)
    ensures AreReceipts(a + b, cfg)
  {
  }

  lemma {:induction false} FramesInConcat(a: seq<Event>, b: seq<Event>)
    ensures FramesIn(a + b) == FramesIn(a) + FramesIn(b)
    decreases |b|
  {
    if b == [] {
      assert a + b == a;
    } else {
      assert (a + b)[..|a + b| - 1] == a + b[..|b| - 1];
      FramesInConcat(a, b[..|b| - 1]);
      Assoc(FramesIn(a), FramesIn(b[..|b| - 1]), [b[|b| - 1].frame]);
    }
  }

  /** Where no reply got lost, the write half and the queue are those of the joint run. */
  lemma PromptIsJoint(history: seq<SplitEvent>, cfg: ReadConfig, before: seq<Event>, got: seq<Frame>, taken: bool,
                      added: seq<Event>, endpoint: Endpoint, queue: seq<Frame>)
    requires PromptSteps(history, cfg, before, got, taken, added) && Split(endpoint, queue) == SplitRun(history)
    ensures taken ==> Split(endpoint, queue) == Split(RunAll(before + added), [])
  {
    if taken {
      assert Promptly(before + added) + [] == Promptly(before + added);
      PromptRefinesJoint(before + added);
    }
  }

  /** `send_fn` failing ends the read. */
  function AfterSending(done: Option<Result<Frame, Error>>, ok: bool): Option<Result<Frame, Error>> {
    if ok then done else Some(Failure(SendError))
  }

  lemma TurnEnds(history: seq<SplitEvent>, cfg: ReadConfig, limit: usize, before: seq<Event>, input: seq<byte>,
                 s: State, done: Option<Result<Frame, Error>>, got: seq<Frame>, taken: bool, added: seq<Event>,
                 next: State, left: seq<byte>, w: WriteConfig, ok: bool)
    requires TurnMade(cfg, limit, input, s, done, got, next, left) && MayReturn(done, limit) && (!ok ==> got != [])
    requires !taken ==> done == Some(Failure(SendError))
    requires PromptSteps(history, cfg, before, got, taken, added) && WrittenAs(added, w)
    ensures var end := AfterSending(done, ok);
            && PromptTurn(history, cfg, limit, before, input, s, end, got, taken, added, next, left, w)
            && (end == Some(Failure(IoError)) <==> done == Some(Failure(IoError)))
            && (end == Some(Failure(SendError)) <==> done == Some(Failure(SendError)) || !ok)
  {
    hide Parse, Assembled, SplitTookTurn, PromptSteps, WrittenAs;
  }

  /** What a pass with a prompt `send_fn` makes of the run, the bytes ahead and the assembly. */
  ghost predicate PromptTurn(history: seq<SplitEvent>, cfg: ReadConfig, limit: usize, before: seq<Event>,
                             input: seq<byte>, s: State, done: Option<Result<Frame, Error>>, got: seq<Frame>,
                             taken: bool, added: seq<Event>, next: State, left: seq<byte>, w: WriteConfig)
  {
    && PromptSteps(history, cfg, before, got, taken, added) && WrittenAs(added, w)
    && TurnMade(cfg, limit, input, s, done, got, next, left) && MayReturn(done, limit)
    && (!taken ==> done == Some(Failure(SendError)))
  }

  lemma TurnReceives(history: seq<SplitEvent>, cfg: ReadConfig, limit: usize, input: seq<byte>, s: State,
                     done: Option<Result<Frame, Error>>, got: seq<Frame>, taken: bool, next: State, left: seq<byte>)
    requires TurnMade(cfg, limit, input, s, done, got, next, left)
    ensures var evs := Handling(cfg, got, taken);
            && SplitRun(history + evs) == SplitRun(history).(queue := SplitRun(history).queue + Owed(evs))
            && |got| <= 1 && (Owed(evs) != [] ==> got != [] && taken)
  {
    hide Parse, Assembled, SplitTookTurn;
    RunReceives(history, cfg, got, taken);
    if got != [] {
      HandlingOne(cfg, got, taken);
    }
  }

  /** The reply to the last receipt was handed to the write half and could not be written, or not any more. */
  ghost predicate LastRefused(before: seq<Event>, evs: seq<Event>) {
    && evs != []
    && var e, last := RunAll(before + evs[..|evs| - 1]), evs[|evs| - 1];
       && last.Receipt? && Reply(last).Some?
       && Put(e, Dressed(last.w, Reply(last).value, last.key), last.room, true).result.Failure?
  }

  lemma RefusedOne(before: seq<Event>, cfg: ReadConfig, got: seq<Frame>, ev: SplitEvent, queue: seq<Frame>)
    requires |got| == 1 && ev.Forward? && queue == Owed(Handling(cfg, got, true))
    ensures var added := [Receipt(got[0], cfg, ev.w, ev.key, ev.room)];
            if queue == [] then !LastRefused(before, added)
            else LastRefused(before, added) <==>
                 Put(RunAll(before), Dressed(ev.w, queue[0], ev.key), ev.room, true).result.Failure?
  {
    var added := [Receipt(got[0], cfg, ev.w, ev.key, ev.room)];
    assert got == [got[0]] && added[..0] == [] && before + [] == before;
    OwedByOne(cfg, got[0], true);
    hide Put, Dressed, React, RunAll, Owed, Handling;
  }

  lemma RefusedLater(before: seq<Event>, evs: seq<Event>, added: seq<Event>)
    requires !LastRefused(before, evs)
    ensures LastRefused(before, evs + added) <==> LastRefused(before + evs, added)
  {
    if added == [] {
      assert evs + added == evs;
    } else {
      assert (evs + added)[..|evs + added| - 1] == evs + added[..|added| - 1];
      Assoc(before, evs, added[..|added| - 1]);
    }
    hide Put, Dressed, React, RunAll;
  }

  lemma PromptStepsMade(before: seq<Event>, cfg: ReadConfig, got: seq<Frame>, ev: SplitEvent)
    requires |got| == 1 && ev.Forward?
    ensures var added := [Receipt(got[0], cfg, ev.w, ev.key, ev.room)];
            PromptSteps(Promptly(before) + Handling(cfg, got, true) + [ev], cfg, before, got, true, added)
  {
    var receipt := Receipt(got[0], cfg, ev.w, ev.key, ev.room);
    HandlingOne(cfg, got, true);
    PromptlyAppend(before, receipt);
    assert [receipt][..0] == [] && FramesIn([receipt]) == [got[0]] == got;
    assert Prompt(receipt) == Handling(cfg, got, true) + [ev];
    Assoc(Promptly(before), Handling(cfg, got, true), [ev]);
    hide Promptly, Handling;
    assert Promptly(before + [receipt]) + [] == Promptly(before + [receipt]);
  }

  lemma NoPromptSteps(before: seq<Event>, cfg: ReadConfig, got: seq<Frame>, taken: bool, w: WriteConfig)
    requires taken ==> got == []
    ensures PromptSteps(Promptly(before) + Handling(cfg, got, taken), cfg, before, got, taken, [])
    ensures !LastRefused(before, []) && WrittenAs([], w)
  {
    assert before + [] == before;
  }

  lemma PromptlyAppend(before: seq<Event>, ev: Event)
    ensures Promptly(before + [ev]) == Promptly(before) + Prompt(ev)
  {
    assert (before + [ev])[..|before + [ev]| - 1] == before;
  }

  lemma HandlingOne(cfg: ReadConfig, got: seq<Frame>, taken: bool)
    requires |got| == 1
    ensures Handling(cfg, got, taken) == [Receive(got[0], cfg, taken)]
    ensures !taken ==> Owed(Handling(cfg, got, taken)) == []
    ensures Owed(Handling(cfg, got, taken)) != [] ==> |Owed(Handling(cfg, got, taken))| == 1
  {
    assert got == [got[0]] && got[..0] == [];
    OwedByOne(cfg, got[0], taken);
  }

  lemma RunStep(history: seq<SplitEvent>, ev: SplitEvent)
    ensures SplitRun(history + [ev]) == SplitStep(SplitRun(history), ev)
  {
    hide SplitStep;
    assert (history + [ev])[..|history + [ev]| - 1] == history;
  }

  lemma RunReceives(history: seq<SplitEvent>, cfg: ReadConfig, fs: seq<Frame>, taken: bool)
    ensures var evs := Handling(cfg, fs, taken);
            SplitRun(history + evs) == SplitRun(history).(queue := SplitRun(history).queue + Owed(evs))
  {
    SplitRunConcat(Split(FRESH, []), history, Handling(cfg, fs, taken));
    ReceivesLengthenQueue(SplitRun(history), cfg, fs, taken);
  }
}
