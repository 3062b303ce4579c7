/** Repeated calls of `FragmentCollector::read_frame` against the frames of the bytes ahead. */
module Calling {
  import opened Bytes
  import opened Errors
  import opened Frames
  import opened Parsing
  import opened Codec
  import opened Fragmentation
  import opened Reassembly
  import opened Collectors
  import Utf8

  // ---------- The calls ----------

  datatype Calls = Calls(results: seq<Result<Frame, Error>>, closed: bool, assembly: State, rest: seq<byte>)

  /** `n` calls of `read_frame` one after the other. */
  ghost function CollectMany(cfg: ReadConfig, limit: usize, closed: bool, s: State, input: seq<byte>, n: nat): Calls
    decreases n
  {
    if n == 0 then Calls([], closed, s, input)
    else
      var c := Collect(cfg, limit, closed, s, input);
      After([c.result], CollectMany(cfg, limit, c.closed, c.assembly, c.rest, n - 1))
  }

  function After(results: seq<Result<Frame, Error>>, c: Calls): Calls {
    c.(results := results + c.results)
  }

  lemma AfterAfter(a: seq<Result<Frame, Error>>, b: seq<Result<Frame, Error>>, c: Calls)
    ensures After(a, After(b, c)) == After(a + b, c)
    ensures After([], c) == c
  {
    Assoc(a, b, c.results);
    assert [] + c.results == c.results;
  }

  /** Some results are there, and `n` more calls will make it `goal`. */
  ghost predicate StillToCall(cfg: ReadConfig, limit: usize, goal: Calls, results: seq<Result<Frame, Error>>,
                              closed: bool, s: State, input: seq<byte>, n: nat)
  {
    After(results, CollectMany(cfg, limit, closed, s, input, n)) == goal
  }

  lemma BeforeCalls(cfg: ReadConfig, limit: usize, closed: bool, s: State, input: seq<byte>, n: nat)
    ensures StillToCall(cfg, limit, CollectMany(cfg, limit, closed, s, input, n), [], closed, s, input, n)
  {
    hide CollectMany;
    AfterAfter([], [], CollectMany(cfg, limit, closed, s, input, n));
  }

  lemma OneMoreCall(cfg: ReadConfig, limit: usize, goal: Calls, results: seq<Result<Frame, Error>>, closed: bool,
                    s: State, input: seq<byte>, n: nat, c: Collected)
    requires StillToCall(cfg, limit, goal, results, closed, s, input, n + 1)
    requires c == Collect(cfg, limit, closed, s, input)
    ensures StillToCall(cfg, limit, goal, results + [c.result], c.closed, c.assembly, c.rest, n)
  {
    AfterAfter(results, [c.result], CollectMany(cfg, limit, c.closed, c.assembly, c.rest, n));
  }

  lemma AfterCalls(cfg: ReadConfig, limit: usize, goal: Calls, results: seq<Result<Frame, Error>>, closed: bool,
                   s: State, input: seq<byte>)
    requires StillToCall(cfg, limit, goal, results, closed, s, input, 0)
    ensures Calls(results, closed, s, input) == goal
  {
    assert results + [] == results;
  }

  lemma ResultsSoFar(cfg: ReadConfig, limit: usize, goal: Calls, results: seq<Result<Frame, Error>>, closed: bool,
                     s: State, input: seq<byte>, n: nat)
    requires StillToCall(cfg, limit, goal, results, closed, s, input, n)
    ensures results <= goal.results
  {
  }

  /** The application reading `n` times; `ok` unless the transport failed, with the results until then. */
  method ReadMany(server: FragmentCollector, n: nat) returns (results: seq<Result<Frame, Error>>, ok: bool)
    requires server.Valid()
    modifies server.ws`history, server.ws.readHalf`buffer, server.ws.stream, server.ws.writeHalf`closed,
             server.ws.writeHalf`writeBuffer, server.fragments
    ensures server.Valid() && server.ws.readHalf.Config() == old(server.ws.readHalf.Config())
    ensures ok ==> Calls(results, server.ws.writeHalf.closed, server.fragments.Now(), server.Ahead()) ==
                   CollectMany(server.ws.readHalf.Config(), server.ws.readHalf.maxMessageSize,
                               old(server.ws.writeHalf.closed), old(server.fragments.Now()), old(server.Ahead()), n)
    ensures server.ws.stream.failures == old(server.ws.stream.failures) + if ok then 0 else 1
    ensures !ok ==> |results| < n && results <=
                    CollectMany(server.ws.readHalf.Config(), server.ws.readHalf.maxMessageSize,
                                old(server.ws.writeHalf.closed), old(server.fragments.Now()), old(server.Ahead()),
                                n).results
  {
    hide *;
    ghost var cfg, limit := server.ws.readHalf.Config(), server.ws.readHalf.maxMessageSize;
    ghost var goal := CollectMany(cfg, limit, server.ws.writeHalf.closed, server.fragments.Now(), server.Ahead(), n);
    BeforeCalls(cfg, limit, server.ws.writeHalf.closed, server.fragments.Now(), server.Ahead(), n);
    results := [];
    for i := 0 to n
      invariant server.Valid() && server.ws.readHalf.Config() == cfg && server.ws.readHalf.maxMessageSize == limit
      invariant StillToCall(cfg, limit, goal, results, server.ws.writeHalf.closed, server.fragments.Now(),
                            server.Ahead(), n - i)
      invariant |results| == i && server.ws.stream.failures == old(server.ws.stream.failures)
    {
      ghost var closed, s, input := server.ws.writeHalf.closed, server.fragments.Now(), server.Ahead();
      var r, evs, mid := server.ReadFrame();
      if r == Failure(IoError) {
        ResultsSoFar(cfg, limit, goal, results, closed, s, input, n - i);
        return results, false;
      }
      OneMoreCall(cfg, limit, goal, results, closed, s, input, n - i - 1,
                  Collected(r, server.ws.writeHalf.closed, server.fragments.Now(), server.Ahead()));
      results := results + [r];
    }
    AfterCalls(cfg, limit, goal, results, server.ws.writeHalf.closed, server.fragments.Now(), server.Ahead());
    ok := true;
  }

  // ---------- Calls and frames ----------

  /** One more frame in front, absorbed or returned. */
  lemma FrameInFront(cfg: ReadConfig, limit: usize, closed: bool, s: State, input: seq<byte>, n: nat)
    requires Parse(input, limit).Got?
    ensures var p := Parse(input, limit);
            var t := CollectPass(cfg, limit, closed, s, Got(p.frame, []));
            if t.done.None? then
              CollectMany(cfg, limit, closed, s, input, n + 1)
              == CollectMany(cfg, limit, t.closed, t.assembly, p.rest, n + 1)
            else CollectMany(cfg, limit, closed, s, input, n + 1)
                 == After([t.done.value], CollectMany(cfg, limit, t.closed, t.assembly, p.rest, n))
  {
    var p := Parse(input, limit);
    assert CollectPass(cfg, limit, closed, s, Got(p.frame, [])) == CollectPass(cfg, limit, closed, s, p);
    hide Parse, CollectPass, Collect;
    CollectOnce(cfg, limit, closed, s, input);
  }

  /** Bytes that make no frame: the error is returned and nothing else changes. */
  lemma ErrorInFront(cfg: ReadConfig, limit: usize, closed: bool, s: State, input: seq<byte>, n: nat)
    requires Parse(input, limit).Failed?
    ensures var p := Parse(input, limit);
            CollectMany(cfg, limit, closed, s, input, n + 1)
            == After([Failure(p.error)], CollectMany(cfg, limit, closed, s, p.rest, n))
  {
    hide Parse, Collect;
    CollectOnce(cfg, limit, closed, s, input);
  }

  /** What `n` calls make of any bytes, in terms of their frames and the error after the last one. */
  ghost predicate FollowsFrames(cfg: ReadConfig, limit: usize, closed: bool, s: State, input: seq<byte>, n: nat,
                                t: Transcript)
  {
    var c, h := CollectMany(cfg, limit, closed, s, input, n), HandleAll(cfg, limit, closed, s, t.frames);
    if n <= |h.results| then c.results == h.results[..n]
    else t.end.Failed? && c == After(h.results + [Failure(t.end.error)],
                                     CollectMany(cfg, limit, h.closed, h.assembly, t.end.rest, n - |h.results| - 1))
  }

  /**
    Any bytes and any number of calls: the calls return the results of the frames in them one by one, then the error
    that ends them, and then go on with the bytes that error leaves.
   */
  lemma {:induction false} CallsFollowFrames(cfg: ReadConfig, limit: usize, closed: bool, s: State, input: seq<byte>,
                                             n: nat)
    ensures FollowsFrames(cfg, limit, closed, s, input, n, ParseAll(input, limit))
    decreases |input|, n
  {
    var p := Parse(input, limit);
    ParseProgress(input, limit);
    ParseAllOnce(input, limit);
    hide Parse, ParseAll, CollectMany, CollectPass;
    if n == 0 {
      NoCalls(cfg, limit, closed, s, input, ParseAll(input, limit));
    } else if p.Failed? {
      ErrorInFront(cfg, limit, closed, s, input, n - 1);
      var last: seq<Result<Frame, Error>> := [Failure(p.error)];
      assert [] + last == last;
    } else {
      var t := CollectPass(cfg, limit, closed, s, Got(p.frame, []));
      var rest := ParseAll(p.rest, limit);
      CallsFollowFrames(cfg, limit, t.closed, t.assembly, p.rest, n);
      CallsFollowFrames(cfg, limit, t.closed, t.assembly, p.rest, n - 1);
      FrameInFront(cfg, limit, closed, s, input, n - 1);
      FollowsOneMore(cfg, limit, closed, s, input, n, p.frame, p.rest, rest);
    }
  }

  lemma NoCalls(cfg: ReadConfig, limit: usize, closed: bool, s: State, input: seq<byte>, t: Transcript)
    ensures FollowsFrames(cfg, limit, closed, s, input, 0, t)
  {
  }

  lemma ParseAllOnce(input: seq<byte>, limit: usize)
    ensures var p, t := Parse(input, limit), ParseAll(input, limit);
            if p.Failed? then t == Transcript([], p)
            else t == Transcript([p.frame] + ParseAll(p.rest, limit).frames, ParseAll(p.rest, limit).end)
  {
    ParseProgress(input, limit);
  }

  lemma HandleFirst(cfg: ReadConfig, limit: usize, closed: bool, s: State, f: Frame, fs: seq<Frame>)
    ensures var t := CollectPass(cfg, limit, closed, s, Got(f, []));
            var more := HandleAll(cfg, limit, t.closed, t.assembly, fs);
            HandleAll(cfg, limit, closed, s, [f] + fs) == more.(results := ResultOf(t.done) + more.results)
  {
    assert ([f] + fs)[1..] == fs;
  }

  lemma FollowsOneMore(cfg: ReadConfig, limit: usize, closed: bool, s: State, input: seq<byte>, n: nat, f: Frame,
                       left: seq<byte>, rest: Transcript)
    requires n > 0
    requires var t := CollectPass(cfg, limit, closed, s, Got(f, []));
             && FollowsFrames(cfg, limit, t.closed, t.assembly, left, n, rest)
             && FollowsFrames(cfg, limit, t.closed, t.assembly, left, n - 1, rest)
             && CollectMany(cfg, limit, closed, s, input, n) ==
                if t.done.None? then CollectMany(cfg, limit, t.closed, t.assembly, left, n)
                else After([t.done.value], CollectMany(cfg, limit, t.closed, t.assembly, left, n - 1))
    ensures FollowsFrames(cfg, limit, closed, s, input, n, Transcript([f] + rest.frames, rest.end))
  {
    HandleFirst(cfg, limit, closed, s, f, rest.frames);
    hide CollectMany, CollectPass, HandleAll;
    var t := CollectPass(cfg, limit, closed, s, Got(f, []));
    var more := HandleAll(cfg, limit, t.closed, t.assembly, rest.frames);
    if t.done.None? {
      assert [] + more.results == more.results;
    } else {
      var all, first := [t.done.value] + more.results, [t.done.value];
      if n <= |all| {
        assert all[..n] == first + more.results[..n - 1];
      } else {
        var c := CollectMany(cfg, limit, more.closed, more.assembly, rest.end.rest, n - |all| - 1);
        AfterAfter(first, more.results + [Failure(rest.end.error)], c);
        Assoc(first, more.results, [Failure(rest.end.error)]);
      }
    }
  }

  /** What the calls make of the frames `fs` at the front of `input`, followed by `tail`. */
  ghost predicate OverFrames(cfg: ReadConfig, limit: usize, closed: bool, s: State, fs: seq<Frame>, input: seq<byte>,
                             tail: seq<byte>, n: nat)
  {
    var h := HandleAll(cfg, limit, closed, s, fs);
    var c := CollectMany(cfg, limit, closed, s, input, |h.results| + n);
    if n == 0 then c.results == h.results
    else c == After(h.results, CollectMany(cfg, limit, h.closed, h.assembly, tail, n))
  }

  /** Frames written back to back: their results come out, and a call beyond them starts where the frames end. */
  lemma {:induction false} CallsOverFrames(cfg: ReadConfig, limit: usize, closed: bool, s: State, fs: seq<Frame>,
                                           tail: seq<byte>, n: nat)
    requires forall f :: f in fs ==> WellFormed(f, limit)
    ensures OverFrames(cfg, limit, closed, s, fs, EncodeAll(fs) + tail, tail, n)
    decreases |fs|
  {
    if fs == [] {
      assert EncodeAll(fs) + tail == tail;
      OverNoFrames(cfg, limit, closed, s, tail, n);
    } else {
      var f, rest := fs[0], EncodeAll(fs[1..]) + tail;
      Assoc(Encode(f), EncodeAll(fs[1..]), tail);
      assert fs == [f] + fs[1..];
      hide *;
      var t := CollectPass(cfg, limit, closed, s, Got(f, []));
      RoundTrip(f, rest, limit);
      CallsOverFrames(cfg, limit, t.closed, t.assembly, fs[1..], tail, n);
      OverOneMore(cfg, limit, closed, s, f, fs[1..], Encode(f) + rest, rest, tail, n);
    }
  }

  lemma OverNoFrames(cfg: ReadConfig, limit: usize, closed: bool, s: State, tail: seq<byte>, n: nat)
    ensures OverFrames(cfg, limit, closed, s, [], tail, tail, n)
  {
    hide Collect;
    AfterAfter([], [], CollectMany(cfg, limit, closed, s, tail, n));
  }

  lemma OverOneMore(cfg: ReadConfig, limit: usize, closed: bool, s: State, f: Frame, fs: seq<Frame>, input: seq<byte>,
                    rest: seq<byte>, tail: seq<byte>, n: nat)
    requires Parse(input, limit) == Got(f, rest)
    requires var t := CollectPass(cfg, limit, closed, s, Got(f, []));
             OverFrames(cfg, limit, t.closed, t.assembly, fs, rest, tail, n)
    ensures OverFrames(cfg, limit, closed, s, [f] + fs, input, tail, n)
  {
    var h := HandleAll(cfg, limit, closed, s, [f] + fs);
    HandleFirst(cfg, limit, closed, s, f, fs);
    NoCallYet(cfg, limit, closed, s, input);
    hide CollectMany, CollectPass, HandleAll, Parse;
    var t := CollectPass(cfg, limit, closed, s, Got(f, []));
    var more := HandleAll(cfg, limit, t.closed, t.assembly, fs);
    if t.done.None? {
      assert [] + more.results == more.results;
      if |h.results| + n > 0 {
        FrameInFront(cfg, limit, closed, s, input, |h.results| + n - 1);
      }
    } else {
      FrameInFront(cfg, limit, closed, s, input, |more.results| + n);
      AfterAfter([t.done.value], more.results, CollectMany(cfg, limit, h.closed, h.assembly, tail, n));
    }
  }

  lemma NoCallYet(cfg: ReadConfig, limit: usize, closed: bool, s: State, input: seq<byte>)
    ensures CollectMany(cfg, limit, closed, s, input, 0).results == []
  {
  }

  // ---------- An open connection ----------

  ghost predicate IsAutoClose(cfg: ReadConfig, f: Frame) {
    f.opcode.Close? && cfg.autoClose
  }

  /** The frames that reach the assembly, as the application sees them: all but the answered Pings. */
  function Passing(cfg: ReadConfig, fs: seq<Frame>): seq<Frame> {
    if fs == [] then []
    else (if fs[0].opcode.Ping? && cfg.autoPong then [] else [Received(cfg, fs[0])]) + Passing(cfg, fs[1..])
  }

  /** What comes out of the collector: everything but the steps that only took in a piece. */
  function Visible(results: seq<Result<Option<Frame>, Error>>): seq<Result<Frame, Error>> {
    if results == [] then [] else ResultOf(AssemblyResult(results[0])) + Visible(results[1..])
  }

  lemma VisibleFirst(r: Result<Option<Frame>, Error>, results: seq<Result<Option<Frame>, Error>>)
    ensures Visible([r] + results) == ResultOf(AssemblyResult(r)) + Visible(results)
  {
    assert ([r] + results)[1..] == results;
  }

  /** On an open connection, before any Close, the collector is the assembler over the frames received. */
  lemma {:induction false} OpenIsAssembly(cfg: ReadConfig, limit: usize, s: State, fs: seq<Frame>)
    requires forall f :: f in fs ==> !IsAutoClose(cfg, f)
    ensures var r := AssembleAll(s, Passing(cfg, fs), limit);
            HandleAll(cfg, limit, false, s, fs) == Progress(Visible(r.results), false, r.state)
    decreases |fs|
  {
    if fs != [] {
      var f := fs[0];
      OpenPass(cfg, limit, s, f);
      var t := CollectPass(cfg, limit, false, s, Got(f, []));
      OpenIsAssembly(cfg, limit, t.assembly, fs[1..]);
      var rest := Passing(cfg, fs[1..]);
      hide CollectPass, Assemble;
      if f.opcode.Ping? && cfg.autoPong {
        assert [] + rest == rest;
        assert [] + Visible(AssembleAll(s, rest, limit).results) == Visible(AssembleAll(s, rest, limit).results);
      } else {
        assert ([Received(cfg, f)] + rest)[1..] == rest;
        VisibleFirst(Assemble(s, Received(cfg, f), limit).result, AssembleAll(t.assembly, rest, limit).results);
      }
    }
  }

  lemma OpenPass(cfg: ReadConfig, limit: usize, s: State, f: Frame)
    requires !IsAutoClose(cfg, f)
    ensures var t := CollectPass(cfg, limit, false, s, Got(f, []));
            var o := Assemble(s, Received(cfg, f), limit);
            t == if f.opcode.Ping? && cfg.autoPong then Turn(None, false, s)
                 else Turn(AssemblyResult(o.result), false, o.state)
  {
    hide Assemble;
  }

  // ---------- Closing ----------

  /** What a frame yields on a closed connection. */
  ghost function ClosedResult(cfg: ReadConfig, f: Frame): seq<Result<Frame, Error>> {
    if f.opcode.Ping? && cfg.autoPong then []
    else if !f.opcode.Close? then [Failure(ConnectionClosed)]
    else if !cfg.autoClose || ProperCloseBody(Received(cfg, f).payload) then [Success(Received(cfg, f))]
    else [Failure(CloseError(Received(cfg, f).payload))]
  }

  /** Why a Close is refused. */
  ghost function CloseError(p: seq<byte>): Error {
    if |p| < 2 then InvalidCloseFrame
    else if !Utf8.Valid(p[2..]) then InvalidUTF8
    else InvalidCloseCode
  }

  ghost function ClosedResults(cfg: ReadConfig, fs: seq<Frame>): seq<Result<Frame, Error>> {
    if fs == [] then [] else ClosedResult(cfg, fs[0]) + ClosedResults(cfg, fs[1..])
  }

  /** On a closed connection nothing reaches the assembly any more. */
  lemma {:induction false} ClosedHandles(cfg: ReadConfig, limit: usize, s: State, fs: seq<Frame>)
    ensures HandleAll(cfg, limit, true, s, fs) == Progress(ClosedResults(cfg, fs), true, s)
    decreases |fs|
  {
    if fs != [] {
      ClosedPass(cfg, limit, s, fs[0]);
      ClosedHandles(cfg, limit, s, fs[1..]);
    }
  }

  lemma ClosedPass(cfg: ReadConfig, limit: usize, s: State, f: Frame)
    ensures var t := CollectPass(cfg, limit, true, s, Got(f, []));
            t.closed && t.assembly == s && ResultOf(t.done) == ClosedResult(cfg, f)
  {
  }

  // ---------- The reference for a whole connection ----------

  /** What is open of a message, and whether the connection is closed. */
  datatype Conn = Conn(open: Open, closed: bool)

  datatype Judged = Judged(conn: Conn, results: seq<Result<Frame, Error>>)

  /** The body of a Close that is answered, be it with 1002: empty, or a code and a reason that is text. */
  ghost predicate Answerable(p: seq<byte>) {
    |p| != 1 && (|p| >= 2 ==> Utf8.Valid(p[2..]))
  }

  /** Judges every frame by all the bytes of its message at once, and by whether a Close has gone before. */
  ghost function JudgeFrame(cfg: ReadConfig, c: Conn, f: Frame, limit: usize): Judged {
    var g := Received(cfg, f);
    if f.opcode.Ping? && cfg.autoPong then Judged(c, [])
    else if IsAutoClose(cfg, f) then
      Judged(c.(closed := c.closed || Answerable(g.payload)),
             [if ProperCloseBody(g.payload) then Success(g) else Failure(CloseError(g.payload))])
    else if c.closed then Judged(c, [if f.opcode.Close? then Success(g) else Failure(ConnectionClosed)])
    else
      var v := Judge(c.open, g, limit);
      Judged(c.(open := v.open), ResultOf(AssemblyResult(v.result)))
  }

  ghost function JudgeConn(cfg: ReadConfig, c: Conn, fs: seq<Frame>, limit: usize): Judged
    decreases |fs|
  {
    if fs == [] then Judged(c, [])
    else
      var first := JudgeFrame(cfg, c, fs[0], limit);
      var more := JudgeConn(cfg, first.conn, fs[1..], limit);
      more.(results := first.results + more.results)
  }

  /** Handling frames has the results the reference gives, and leads to its flag and its open message. */
  lemma {:induction false} HandleRefinesJudge(cfg: ReadConfig, limit: usize, s: State, c: Conn, fs: seq<Frame>)
    requires Holds(s, c.open)
    ensures var h, j := HandleAll(cfg, limit, c.closed, s, fs), JudgeConn(cfg, c, fs, limit);
            h.results == j.results && h.closed == j.conn.closed && Holds(h.assembly, j.conn.open)
    decreases |fs|
  {
    if fs != [] {
      PassRefinesJudge(cfg, limit, s, c, fs[0]);
      var t := CollectPass(cfg, limit, c.closed, s, Got(fs[0], []));
      hide CollectPass, JudgeFrame, Holds;
      HandleRefinesJudge(cfg, limit, t.assembly, JudgeFrame(cfg, c, fs[0], limit).conn, fs[1..]);
    }
  }

  lemma PassRefinesJudge(cfg: ReadConfig, limit: usize, s: State, c: Conn, f: Frame)
    requires Holds(s, c.open)
    ensures var t, j := CollectPass(cfg, limit, c.closed, s, Got(f, [])), JudgeFrame(cfg, c, f, limit);
            ResultOf(t.done) == j.results && t.closed == j.conn.closed && Holds(t.assembly, j.conn.open)
  {
    StreamingRefinesJudge(s, c.open, Received(cfg, f), limit);
    if IsAutoClose(cfg, f) {
      ClosePass(cfg, limit, c.closed, s, f);
    } else if c.closed {
      ClosedPass(cfg, limit, s, f);
    } else {
      OpenPass(cfg, limit, s, f);
    }
    hide CollectPass, Judge, Assemble, Holds;
  }

  lemma ClosePass(cfg: ReadConfig, limit: usize, closed: bool, s: State, f: Frame)
    requires IsAutoClose(cfg, f)
    ensures var t, g := CollectPass(cfg, limit, closed, s, Got(f, [])), Received(cfg, f);
            && t.assembly == s && t.closed == (closed || Answerable(g.payload))
            && ResultOf(t.done) ==
               [if ProperCloseBody(g.payload) then Success(g) else Failure(CloseError(g.payload))]
  {
    hide Utf8.Valid;
  }

  /** All the results of the bytes: those of the reference, then the error that ends the frames. */
  ghost function AllResults(cfg: ReadConfig, c: Conn, t: Transcript, limit: usize): seq<Result<Frame, Error>> {
    JudgeConn(cfg, c, t.frames, limit).results + if t.end.Failed? then [Failure(t.end.error)] else []
  }

  /**
    The collector against the one-shot reference, for any bytes and any number of calls, on an open or a closed
    connection, whatever Closes are among the frames: every message and every error is what judging all the bytes of
    each message at once makes of the frames received. Calls beyond the last error start from the bytes it leaves, with
    the flag and the open message of the reference.
   */
  lemma CollectorRefinesJudge(cfg: ReadConfig, limit: usize, s: State, c: Conn, input: seq<byte>, n: nat)
    requires Holds(s, c.open)
    ensures var t := ParseAll(input, limit);
            var all, end := AllResults(cfg, c, t, limit), JudgeConn(cfg, c, t.frames, limit).conn;
            var next := HandleAll(cfg, limit, c.closed, s, t.frames).assembly;
            var calls := CollectMany(cfg, limit, c.closed, s, input, n);
            && Holds(next, end.open)
            && if n < |all| then calls.results == all[..n]
               else calls == After(all, CollectMany(cfg, limit, end.closed, next, t.end.rest, n - |all|))
  {
    hide *;
    var t := ParseAll(input, limit);
    CallsFollowFrames(cfg, limit, c.closed, s, input, n);
    HandleRefinesJudge(cfg, limit, s, c, t.frames);
    FollowsAll(cfg, limit, s, c, input, n, t);
  }

  lemma FollowsAll(cfg: ReadConfig, limit: usize, s: State, c: Conn, input: seq<byte>, n: nat, t: Transcript)
    requires FollowsFrames(cfg, limit, c.closed, s, input, n, t) && t.end.Failed?
    requires var h, j := HandleAll(cfg, limit, c.closed, s, t.frames), JudgeConn(cfg, c, t.frames, limit);
             h.results == j.results && h.closed == j.conn.closed
    ensures var all, h := AllResults(cfg, c, t, limit), HandleAll(cfg, limit, c.closed, s, t.frames);
            var calls := CollectMany(cfg, limit, c.closed, s, input, n);
            if n < |all| then calls.results == all[..n]
            else calls == After(all, CollectMany(cfg, limit, h.closed, h.assembly, t.end.rest, n - |all|))
  {
    hide HandleAll, JudgeConn, CollectMany;
    var results := HandleAll(cfg, limit, c.closed, s, t.frames).results;
    var all := results + [Failure(t.end.error)];
    assert n <= |results| ==> all[..n] == results[..n];
  }

  /** A Close that closes the connection. */
  ghost predicate ClosesFor(cfg: ReadConfig, f: Frame) {
    IsAutoClose(cfg, f) && Answerable(Received(cfg, f).payload)
  }

  /** A connection is closed by the frames exactly if one of them is a Close that is answered. */
  lemma {:induction false} ClosedByFrames(cfg: ReadConfig, limit: usize, s: State, fs: seq<Frame>)
    ensures HandleAll(cfg, limit, false, s, fs).closed <==> exists f :: f in fs && ClosesFor(cfg, f)
    decreases |fs|
  {
    if fs != [] {
      var f, t := fs[0], CollectPass(cfg, limit, false, s, Got(fs[0], []));
      if IsAutoClose(cfg, f) {
        ClosePass(cfg, limit, false, s, f);
      } else {
        OpenPass(cfg, limit, s, f);
      }
      assert t.closed <==> ClosesFor(cfg, f);
      hide *;
      HandleFirst(cfg, limit, false, s, f, fs[1..]);
      assert fs == [f] + fs[1..];
      if t.closed {
        ClosedHandles(cfg, limit, t.assembly, fs[1..]);
        assert f in fs;
      } else {
        ClosedByFrames(cfg, limit, t.assembly, fs[1..]);
        assert forall g :: g in fs ==> g == f || g in fs[1..];
      }
    }
  }

  /**
    The first Close that is answered: the frames before it, refused Closes included, are judged as on an open
    connection, those after it as on a closed one, and the assembly stays what it was.
   */
  lemma FirstClose(cfg: ReadConfig, limit: usize, s: State, o: Open, before: seq<Frame>, close: Frame,
                   more: seq<Frame>)
    requires Holds(s, o) && ClosesFor(cfg, close) && forall f :: f in before ==> !ClosesFor(cfg, f)
    ensures var p, h := Received(cfg, close).payload, HandleAll(cfg, limit, false, s, before);
            && h.results == JudgeConn(cfg, Conn(o, false), before, limit).results && !h.closed
            && HandleAll(cfg, limit, false, s, before + [close] + more) ==
               Progress(h.results + [if ProperCloseBody(p) then Success(Received(cfg, close))
                                     else Failure(InvalidCloseCode)] + ClosedResults(cfg, more), true, h.assembly)
  {
    var h := HandleAll(cfg, limit, false, s, before);
    ClosePass(cfg, limit, false, h.assembly, close);
    assert IsAutoClose(cfg, close) && Answerable(Received(cfg, close).payload);
    assert !ProperCloseBody(Received(cfg, close).payload) ==>
      CloseError(Received(cfg, close).payload) == InvalidCloseCode;
    hide *;
    HandleRefinesJudge(cfg, limit, s, Conn(o, false), before);
    ClosedByFrames(cfg, limit, s, before);
    HandleOne(cfg, limit, false, h.assembly, Got(close, []));
    HandleConcat(cfg, limit, false, s, before, [close]);
    HandleConcat(cfg, limit, false, s, before + [close], more);
    ClosedHandles(cfg, limit, h.assembly, more);
  }
}
