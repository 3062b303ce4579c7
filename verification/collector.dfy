/** `FragmentCollector` (`src/fragment.rs`): whole messages out of the frames of a connection. */
module Collectors {
  import opened Bytes
  import opened Errors
  import opened Frames
  import opened Parsing
  import opened Endpoints
  import opened WebSockets
  import opened Fragmentation
  import opened Reassembly

  // ---------- What a call returns, as a function of the bytes ahead ----------

  /** One pass of the loop: the result if it is the last one, the closed flag and the assembly after it. */
  datatype Turn = Turn(done: Option<Result<Frame, Error>>, closed: bool, assembly: State)

  ghost function CollectPass(cfg: ReadConfig, limit: usize, closed: bool, s: State, p: Parsed): Turn {
    var pass := ReadPass(cfg, closed, p);
    var g := Gather(s, pass.done, limit);
    Turn(g.done, pass.closed, g.assembly)
  }

  datatype Gathered = Gathered(done: Option<Result<Frame, Error>>, assembly: State)

  /** What the assembly makes of what a pass of the read loop found: errors pass it by. */
  ghost function Gather(s: State, found: Option<Result<Frame, Error>>, limit: usize): Gathered {
    if found.None? || found.value.Failure? then Gathered(found, s)
    else
      var o := Assemble(s, found.value.value, limit);
      Gathered(AssemblyResult(o.result), o.state)
  }

  function AssemblyResult(r: Result<Option<Frame>, Error>): Option<Result<Frame, Error>> {
    match r
    case Failure(e) => Some(Failure(e))
    case Success(None) => None
    case Success(Some(f)) => Some(Success(f))
  }

  datatype Collected = Collected(result: Result<Frame, Error>, closed: bool, assembly: State, rest: seq<byte>)

  /** `FragmentCollector::read_frame` on a transport that does not fail. */
  ghost function Collect(cfg: ReadConfig, limit: usize, closed: bool, s: State, input: seq<byte>): Collected
    decreases |input|
  {
    var p := Parse(input, limit);
    var t := CollectPass(cfg, limit, closed, s, p);
    if t.done.Some? then Collected(t.done.value, t.closed, t.assembly, p.rest)
    else
      ParseProgress(input, limit);
      Collect(cfg, limit, t.closed, t.assembly, p.rest)
  }

  /** A pass that is not the last one has taken at least a header off the front, so the loop ends. */
  lemma CollectOnce(cfg: ReadConfig, limit: usize, closed: bool, s: State, input: seq<byte>)
    ensures var p := Parse(input, limit);
            var t := CollectPass(cfg, limit, closed, s, p);
            if t.done.Some?
            then Collect(cfg, limit, closed, s, input) == Collected(t.done.value, t.closed, t.assembly, p.rest)
            else && |p.rest| + 2 <= |input|
                 && Collect(cfg, limit, closed, s, input) == Collect(cfg, limit, t.closed, t.assembly, p.rest)
  {
    ParseProgress(input, limit);
  }

  ghost predicate FoundWellFormed(found: Option<Result<Frame, Error>>, limit: nat) {
    found.Some? && found.value.Success? ==> WellFormed(found.value.value, limit)
  }

  ghost predicate MayReturn(done: Option<Result<Frame, Error>>, limit: nat) {
    done.Some? && done.value.Success? ==> Deliverable(done.value.value, limit)
  }

  /** The invariant of the assembly is kept, and what it returns may be delivered. */
  lemma GatherKeepsInv(s: State, found: Option<Result<Frame, Error>>, limit: usize)
    requires Inv(s, limit) && FoundWellFormed(found, limit)
    ensures var g := Gather(s, found, limit);
            Inv(g.assembly, limit) && MayReturn(g.done, limit)
  {
    if found.Some? && found.value.Success? {
      AssembleKeepsInv(s, found.value.value, limit);
      DeliveredFrame(s, found.value.value, limit);
    }
  }

  /** The part of both collector loops after the exchange. */
  method GatherInto(fragments: Fragments, found: Option<Result<Frame, Error>>, limit: usize)
    returns (done: Option<Result<Frame, Error>>)
    requires Inv(fragments.Now(), limit) && FoundWellFormed(found, limit)
    modifies fragments
    ensures Inv(fragments.Now(), limit) && MayReturn(done, limit)
    ensures Gathered(done, fragments.Now()) == Gather(old(fragments.Now()), found, limit)
  {
    GatherKeepsInv(fragments.Now(), found, limit);
    done := found;
    if found.Some? && found.value.Success? {
      InvIsResumable(fragments.Now(), limit);
      hide Assemble, Inv, Deliverable;
      var r := fragments.Accumulate(found.value.value, limit);
      done := AssemblyResult(r);
    }
  }

  lemma InvIsResumable(s: State, limit: usize)
    requires Inv(s, limit)
    ensures Resumable(s)
  {
  }

  // ---------- Frame by frame ----------

  /** What frames have brought about: results in order, the closed flag and the assembly. */
  datatype Progress = Progress(results: seq<Result<Frame, Error>>, closed: bool, assembly: State)

  function ResultOf(done: Option<Result<Frame, Error>>): seq<Result<Frame, Error>> {
    if done.Some? then [done.value] else []
  }

  ghost function HandleAll(cfg: ReadConfig, limit: usize, closed: bool, s: State, fs: seq<Frame>): Progress
    decreases |fs|
  {
    if fs == [] then Progress([], closed, s)
    else
      var t := CollectPass(cfg, limit, closed, s, Got(fs[0], []));
      var more := HandleAll(cfg, limit, t.closed, t.assembly, fs[1..]);
      more.(results := ResultOf(t.done) + more.results)
  }

  lemma {:induction false} HandleConcat(cfg: ReadConfig, limit: usize, closed: bool, s: State, a: seq<Frame>,
                                        b: seq<Frame>)
    ensures var ha := HandleAll(cfg, limit, closed, s, a);
            var hb := HandleAll(cfg, limit, ha.closed, ha.assembly, b);
            HandleAll(cfg, limit, closed, s, a + b) == hb.(results := ha.results + hb.results)
    decreases |a|
  {
    hide CollectPass;
    if a == [] {
      assert a + b == b;
      assert [] + HandleAll(cfg, limit, closed, s, b).results == HandleAll(cfg, limit, closed, s, b).results;
    } else {
      var t := CollectPass(cfg, limit, closed, s, Got(a[0], []));
      assert (a + b)[1..] == a[1..] + b && (a + b)[0] == a[0];
      HandleConcat(cfg, limit, t.closed, t.assembly, a[1..], b);
      var ha := HandleAll(cfg, limit, t.closed, t.assembly, a[1..]);
      Assoc(ResultOf(t.done), ha.results, HandleAll(cfg, limit, ha.closed, ha.assembly, b).results);
    }
  }

  /** The frames `fs` lead to this flag and this assembly. */
  ghost predicate LeadsTo(cfg: ReadConfig, limit: usize, was: bool, s: State, fs: seq<Frame>, closed: bool,
                          after: State)
  {
    var h := HandleAll(cfg, limit, was, s, fs);
    h.closed == closed && h.assembly == after
  }

  lemma LeadsFurther(cfg: ReadConfig, limit: usize, was: bool, s: State, fs: seq<Frame>, closed: bool, now: State,
                     p: Parsed, got: seq<Frame>, after: bool, next: State)
    requires LeadsTo(cfg, limit, was, s, fs, closed, now)
    requires Assembled(p, cfg, limit, closed, now, got, next)
    requires after == if got == [] then closed else ReadPass(cfg, closed, p).closed
    ensures LeadsTo(cfg, limit, was, s, fs + got, after, next)
  {
    HandleConcat(cfg, limit, was, s, fs, got);
    if got != [] {
      HandleOne(cfg, limit, closed, now, p);
    }
  }

  lemma HandleOne(cfg: ReadConfig, limit: usize, closed: bool, s: State, p: Parsed)
    requires p.Got?
    ensures var t := CollectPass(cfg, limit, closed, s, p);
            HandleAll(cfg, limit, closed, s, [p.frame]) == Progress(ResultOf(t.done), t.closed, t.assembly)
  {
    hide React, Assemble;
    var t := CollectPass(cfg, limit, closed, s, p);
    assert [p.frame][1..] == [];
    assert ResultOf(t.done) + [] == ResultOf(t.done);
  }

  // ---------- The loop ----------

  /** What a turn makes of a parse. */
  ghost predicate TookTurn(cfg: ReadConfig, limit: usize, was: bool, s: State, p: Parsed,
                         done: Option<Result<Frame, Error>>, closed: bool, after: State, left: seq<byte>)
  {
    left == p.rest && Turn(done, closed, after) == CollectPass(cfg, limit, was, s, p)
  }

  lemma PassThenGather(cfg: ReadConfig, limit: usize, was: bool, s: State, p: Parsed,
                       found: Option<Result<Frame, Error>>, closed: bool, left: seq<byte>)
    requires Passed(p, cfg, was, found, closed, left)
    ensures var g := Gather(s, found, limit);
            TookTurn(cfg, limit, was, s, p, g.done, closed, g.assembly, left)
  {
  }

  /** What a pass that took the frames `got`, one or none, makes of the assembly, also if a reply failed. */
  ghost predicate Assembled(p: Parsed, cfg: ReadConfig, limit: usize, was: bool, s: State, got: seq<Frame>,
                            after: State)
  {
    if got == [] then after == s
    else p.Got? && got == [p.frame] && after == CollectPass(cfg, limit, was, s, p).assembly
  }

  lemma AssembledBy(p: Parsed, cfg: ReadConfig, limit: usize, was: bool, s: State, found: Option<Result<Frame, Error>>,
                    got: seq<Frame>, closed: bool, left: seq<byte>)
    requires got == [] || (p.Got? && got == [p.frame])
    requires Passed(p, cfg, was, found, closed, left) || (found.Some? && found.value.Failure?)
    requires Passed(p, cfg, was, found, closed, left) || got == [] || ReactTo(cfg, p).reply.Some?
    requires got == [] ==> found.Some? && found.value.Failure?
    ensures Assembled(p, cfg, limit, was, s, got, Gather(s, found, limit).assembly)
  {
  }

  lemma PassFound(cfg: ReadConfig, limit: usize, was: bool, input: seq<byte>, found: Option<Result<Frame, Error>>,
                  closed: bool, left: seq<byte>)
    requires Passed(Parse(input, limit), cfg, was, found, closed, left)
    ensures FoundWellFormed(found, limit)
  {
    PassWellFormed(cfg, was, input, limit);
  }

  /** Only the transport makes an I/O error and only `send_fn` a send error, and then the assembly is left as it was. */
  lemma GatherErrors(s: State, found: Option<Result<Frame, Error>>, limit: usize)
    ensures Gather(s, found, limit).done == Some(Failure(IoError)) <==> found == Some(Failure(IoError))
    ensures Gather(s, found, limit).done == Some(Failure(SendError)) <==> found == Some(Failure(SendError))
    ensures found == Some(Failure(IoError)) ==> Gather(s, found, limit).assembly == s
    ensures Gather(s, found, limit).done.None? ==> found.None? || found.value.Success?
  {
  }

  /** What the loop will return from where it is now. */
  ghost predicate Collecting(cfg: ReadConfig, limit: usize, goal: Collected, closed: bool, s: State, ahead: seq<byte>) {
    Collect(cfg, limit, closed, s, ahead) == goal
  }

  lemma TurnAdvances(cfg: ReadConfig, limit: usize, goal: Collected, closed: bool, s: State, ahead: seq<byte>,
                     done: Option<Result<Frame, Error>>, after: bool, next: State, left: seq<byte>)
    requires Collecting(cfg, limit, goal, closed, s, ahead)
    requires TookTurn(cfg, limit, closed, s, Parse(ahead, limit), done, after, next, left)
    ensures if done.Some? then goal == Collected(done.value, after, next, left)
            else Collecting(cfg, limit, goal, after, next, left) && |left| < |ahead|
  {
    CollectOnce(cfg, limit, closed, s, ahead);
  }

  /** Where the loop stands: what it will return, the frames it has taken and what they have led to. */
  ghost predicate Halfway(cfg: ReadConfig, limit: usize, was: bool, start: State, input: seq<byte>, goal: Collected,
                          evs: seq<Event>, mid: seq<byte>, closed: bool, s: State)
  {
    && Collecting(cfg, limit, goal, closed, s, mid) && TookAll(input, limit, cfg, evs, mid)
    && LeadsTo(cfg, limit, was, start, FramesIn(evs), closed, s)
  }

  lemma NothingYet(cfg: ReadConfig, limit: usize, closed: bool, s: State, input: seq<byte>)
    ensures Halfway(cfg, limit, closed, s, input, Collect(cfg, limit, closed, s, input), [], input, closed, s)
  {
  }

  lemma OneTurnMore(cfg: ReadConfig, limit: usize, was: bool, start: State, input: seq<byte>, goal: Collected,
                    evs: seq<Event>, mid: seq<byte>, closed: bool, s: State, done: Option<Result<Frame, Error>>,
                    added: seq<Event>, after: bool, next: State, left: seq<byte>)
    requires Halfway(cfg, limit, was, start, input, goal, evs, mid, closed, s)
    requires Recorded(Parse(mid, limit), cfg, closed, added, after, left)
    requires Assembled(Parse(mid, limit), cfg, limit, closed, s, FramesIn(added), next)
    requires done != Some(Failure(IoError)) ==>
      TookTurn(cfg, limit, closed, s, Parse(mid, limit), done, after, next, left)
    ensures var now := if added == [] then mid else left;
            && TookAll(input, limit, cfg, evs + added, now)
            && LeadsTo(cfg, limit, was, start, FramesIn(evs + added), after, next)
            && (done.None? && added != [] ==>
                  Halfway(cfg, limit, was, start, input, goal, evs + added, now, after, next) && |left| < |mid|)
    ensures done.Some? && done != Some(Failure(IoError)) ==> goal == Collected(done.value, after, next, left)
  {
    hide Parse, Collect, Assembled, TookTurn, TookAll, LeadsTo, Recorded, FramesIn, Collecting;
    TookMore(input, limit, cfg, evs, mid, closed, added, after, left);
    FramesInOne(Parse(mid, limit), cfg, closed, added, after, left);
    FramesInMore(Parse(mid, limit), cfg, closed, evs, added, after, left);
    LeadsFurther(cfg, limit, was, start, FramesIn(evs), closed, s, Parse(mid, limit), FramesIn(added), after, next);
    if done != Some(Failure(IoError)) {
      TurnAdvances(cfg, limit, goal, closed, s, mid, done, after, next, left);
    }
  }

  class FragmentCollector {
    /** The stream and the two halves taken over from the `WebSocket`, with its history. */
    const ws: WebSocket
    const fragments: Fragments

    /** `new` */
    constructor (ws: WebSocket)
      requires ws.Valid()
      ensures this.ws == ws && fresh(fragments) && fragments.Now() == NEW_STATE
      ensures Valid() && Ahead() == ws.Ahead()
    {
      this.ws := ws;
      fragments := new Fragments();
    }

    ghost predicate Valid()
      reads ws, ws.stream, ws.readHalf, ws.writeHalf, fragments
    {
      ws.Valid() && Inv(fragments.Now(), ws.readHalf.maxMessageSize)
    }

    ghost function Ahead(): seq<byte>
      reads ws.readHalf, ws.stream
    {
      ws.Ahead()
    }

    /** One pass of the loop of `read_frame`. */
    method OneTurn() returns (done: Option<Result<Frame, Error>>, ghost added: seq<Event>)
      requires Valid()
      modifies ws`history, ws.readHalf`buffer, ws.stream, ws.writeHalf`closed, ws.writeHalf`writeBuffer, fragments
      ensures ws.readHalf.Config() == old(ws.readHalf.Config())
      ensures Valid() && ws.history == old(ws.history) + added
      ensures ws.writeHalf.Config() == old(ws.writeHalf.Config()) && WrittenAs(added, ws.writeHalf.Config())
      ensures ws.stream.failures == old(ws.stream.failures) + if done == Some(Failure(IoError)) then 1 else 0
      ensures done == Some(Failure(IoError)) && added == [] ==> CutShort(old(Ahead()), Ahead())
      ensures done.None? ==> added != []
      ensures Recorded(Parse(old(Ahead()), ws.readHalf.maxMessageSize), ws.readHalf.Config(), old(ws.writeHalf.closed),
                       added, ws.writeHalf.closed, Ahead())
      ensures Assembled(Parse(old(Ahead()), ws.readHalf.maxMessageSize), ws.readHalf.Config(),
                        ws.readHalf.maxMessageSize, old(ws.writeHalf.closed), old(fragments.Now()), FramesIn(added),
                        fragments.Now())
      ensures done == Some(Failure(IoError)) ==> fragments.Now() == old(fragments.Now())
      ensures done != Some(Failure(IoError)) ==>
        TookTurn(ws.readHalf.Config(), ws.readHalf.maxMessageSize, old(ws.writeHalf.closed), old(fragments.Now()),
               Parse(old(Ahead()), ws.readHalf.maxMessageSize), done, ws.writeHalf.closed, fragments.Now(), Ahead())
      ensures done.Some? && done.value.Success? ==> Deliverable(done.value.value, ws.readHalf.maxMessageSize)
    {
      ghost var cfg, limit, input := ws.readHalf.Config(), ws.readHalf.maxMessageSize, Ahead();
      ghost var was, s := ws.writeHalf.closed, fragments.Now();
      hide Parse, Gather, TookTurn, Passed, Recorded, Assembled, Inv, Reflects, AllParsed, Deliverable, CutShort,
           WellFormed, FramesIn, WrittenAs;
      var found;
      found, added := ws.OnePass();
      if found != Some(Failure(IoError)) {
        PassFound(cfg, limit, was, input, found, ws.writeHalf.closed, Ahead());
        PassThenGather(cfg, limit, was, s, Parse(input, limit), found, ws.writeHalf.closed, Ahead());
      }
      FramesInOne(Parse(input, limit), cfg, was, added, ws.writeHalf.closed, Ahead());
      AssembledBy(Parse(input, limit), cfg, limit, was, s, found, FramesIn(added), ws.writeHalf.closed, Ahead());
      done := GatherInto(fragments, found, ws.readHalf.maxMessageSize);
      GatherErrors(s, found, limit);
    }

    /** `read_frame`; `mid` is what was ahead after the last frame it handled. */
    method ReadFrame() returns (r: Result<Frame, Error>, ghost evs: seq<Event>, ghost mid: seq<byte>)
      requires Valid()
      modifies ws`history, ws.readHalf`buffer, ws.stream, ws.writeHalf`closed, ws.writeHalf`writeBuffer, fragments
      ensures ws.readHalf.Config() == old(ws.readHalf.Config())
      ensures Valid() && ws.history == old(ws.history) + evs
      ensures ws.writeHalf.Config() == old(ws.writeHalf.Config()) && WrittenAs(evs, ws.writeHalf.Config())
      ensures r.Success? ==> Deliverable(r.value, ws.readHalf.maxMessageSize)
      ensures r != Failure(IoError) ==>
        Collected(r, ws.writeHalf.closed, fragments.Now(), Ahead()) ==
        Collect(ws.readHalf.Config(), ws.readHalf.maxMessageSize, old(ws.writeHalf.closed), old(fragments.Now()),
                old(Ahead()))
      ensures TookAll(old(Ahead()), ws.readHalf.maxMessageSize, ws.readHalf.Config(), evs, mid)
      ensures r == Failure(IoError) ==> CutShort(mid, Ahead())
      ensures ws.stream.failures == old(ws.stream.failures) + if r == Failure(IoError) then 1 else 0
      ensures LeadsTo(ws.readHalf.Config(), ws.readHalf.maxMessageSize, old(ws.writeHalf.closed), old(fragments.Now()),
                      FramesIn(evs), ws.writeHalf.closed, fragments.Now())
    {
      ghost var cfg, limit, input := ws.readHalf.Config(), ws.readHalf.maxMessageSize, Ahead();
      ghost var was, start := ws.writeHalf.closed, fragments.Now();
      hide *;
      ghost var goal := Collect(cfg, limit, was, start, input);
      evs, mid := [], input;
      ghost var w := ws.writeHalf.Config();
      NothingYet(cfg, limit, was, start, input);
      NothingWritten(w);
      while true
        invariant Valid() && ws.history == old(ws.history) + evs
        invariant ws.readHalf.Config() == cfg && ws.readHalf.maxMessageSize == limit
        invariant ws.writeHalf.Config() == w && WrittenAs(evs, w)
        invariant Halfway(cfg, limit, was, start, input, goal, evs, mid, ws.writeHalf.closed, fragments.Now())
        invariant mid == Ahead() && ws.stream.failures == old(ws.stream.failures)
        decreases |mid|
      {
        ghost var closed, s := ws.writeHalf.closed, fragments.Now();
        var done, added := OneTurn();
        OneTurnMore(cfg, limit, was, start, input, goal, evs, mid, closed, s, done, added, ws.writeHalf.closed,
                    fragments.Now(), Ahead());
        Assoc(old(ws.history), evs, added);
        WrittenConcat(evs, added, w);
        evs, mid := evs + added, if added == [] then mid else Ahead();
        if done.Some? {
          NothingCut(mid);
          return done.value, evs, mid;
        }
      }
    }

    /** `write_frame` */
    method WriteFrame(frame: Frame) returns (r: Result<(), Error>, ghost ev: Event)
      requires Valid()
      modifies ws`history, ws.stream`wire, ws.stream`failures, ws.writeHalf`closed, ws.writeHalf`writeBuffer
      ensures Valid() && ws.history == old(ws.history) + [ev]
      ensures ev.AppWrite? && ev.frame == frame && ev.w == ws.writeHalf.Config()
      ensures r == Put(old(RunAll(ws.history)), Dressed(ev.w, frame, ev.key), ev.room, false).result
      ensures ws.stream.failures == old(ws.stream.failures) + if r == Failure(IoError) then 1 else 0
    {
      r, ev := ws.WriteFrame(frame);
    }
  }
}
