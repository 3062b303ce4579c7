/** Laws of reassembly over whole runs of frames. */
module Reassembly {
  import opened Bytes
  import opened Errors
  import opened Frames
  import opened Parsing
  import opened Fragmentation
  import Utf8

  // ---------- Runs ----------

  datatype Run = Run(state: State, results: seq<Result<Option<Frame>, Error>>)

  /** Any run of frames, errors included: the collector goes on after an error. */
  ghost function AssembleAll(s: State, fs: seq<Frame>, limit: usize): Run
    decreases |fs|
  {
    if fs == [] then Run(s, [])
    else
      var o := Assemble(s, fs[0], limit);
      var r := AssembleAll(o.state, fs[1..], limit);
      Run(r.state, [o.result] + r.results)
  }

  lemma {:induction false} AssembleConcat(s: State, a: seq<Frame>, b: seq<Frame>, limit: usize)
    ensures var ra := AssembleAll(s, a, limit);
            var rb := AssembleAll(ra.state, b, limit);
            AssembleAll(s, a + b, limit) == Run(rb.state, ra.results + rb.results)
    decreases |a|
  {
    if a == [] {
      assert a + b == b;
      assert [] + AssembleAll(s, b, limit).results == AssembleAll(s, b, limit).results;
    } else {
      var o := Assemble(s, a[0], limit);
      assert (a + b)[1..] == a[1..] + b;
      AssembleConcat(o.state, a[1..], b, limit);
      var ra := AssembleAll(o.state, a[1..], limit);
      Assoc([o.result], ra.results, AssembleAll(ra.state, b, limit).results);
    }
  }

  // ---------- The collector invariant ----------

  /** Nothing of an open message is lost, except at the continuation that fails validation. */
  lemma AssembleKeepsInv(s: State, f: Frame, limit: usize)
    requires Inv(s, limit)
    ensures var o := Assemble(s, f, limit);
            && Inv(o.state, limit)
            && (Exact(s) ==> (Exact(o.state) <==> !(f.opcode.Continuation? && o.result == Failure(InvalidUTF8))))
  {
    if f.opcode.Text? {
      Utf8.FeedKeeps([], [], f.payload);
      Utf8.FeedTextValid([], [], f.payload);
    } else if f.opcode.Continuation? && s.fragments.Some? && s.fragments.value.TextFragment? {
      NextKeepsInv(s, f, limit);
    }
  }

  lemma NextKeepsInv(s: State, f: Frame, limit: usize)
    requires Inv(s, limit) && s.fragments.Some? && s.fragments.value.TextFragment?
    ensures var o := AssembleNext(s, f, limit);
            Inv(o.state, limit) && (Exact(s) ==> (Exact(o.state) <==> o.result != Failure(InvalidUTF8)))
  {
    var t := s.fragments.value;
    Utf8.FeedKeeps(t.buffer, Held(t.incomplete), f.payload);
    Utf8.FeedTextValid(t.buffer, Held(t.incomplete), f.payload);
  }

  /** What the documentation promises of a collected frame, and the size limit. */
  ghost predicate Deliverable(d: Frame, limit: nat) {
    && d.fin && !d.opcode.Continuation? && |d.payload| < limit
    && (d.opcode.Text? ==> Utf8.Valid(d.payload))
  }

  /** What the invariant gives for the frame a step returns. */
  lemma DeliveredFrame(s: State, f: Frame, limit: usize)
    requires Inv(s, limit) && WellFormed(f, limit)
    ensures var r := Assemble(s, f, limit).result;
            r.Success? && r.value.Some? ==> Deliverable(r.value.value, limit)
  {
    if f.opcode.Continuation? && s.fragments.Some? && s.fragments.value.TextFragment? {
      var t := s.fragments.value;
      Utf8.FeedKeeps(t.buffer, Held(t.incomplete), f.payload);
      Utf8.FeedTextValid(t.buffer, Held(t.incomplete), f.payload);
    }
  }

  /** The invariant in every state a run reaches, and what it gives for every frame the run returns. */
  lemma {:induction false} RunKeepsInv(s: State, fs: seq<Frame>, limit: usize)
    requires Inv(s, limit) && forall f :: f in fs ==> WellFormed(f, limit)
    ensures var r := AssembleAll(s, fs, limit);
            && Inv(r.state, limit) && |r.results| == |fs|
            && forall i :: 0 <= i < |fs| && r.results[i].Success? && r.results[i].value.Some? ==>
                 Deliverable(r.results[i].value.value, limit)
    decreases |fs|
  {
    if fs != [] {
      AssembleKeepsInv(s, fs[0], limit);
      DeliveredFrame(s, fs[0], limit);
      RunKeepsInv(Assemble(s, fs[0], limit).state, fs[1..], limit);
    }
  }

  lemma {:induction false} RunKeepsExact(s: State, fs: seq<Frame>, limit: usize)
    requires Inv(s, limit) && Exact(s)
    requires var r := AssembleAll(s, fs, limit);
             forall i :: 0 <= i < |fs| && i < |r.results| && fs[i].opcode.Continuation? ==>
               r.results[i] != Failure(InvalidUTF8)
    ensures Exact(AssembleAll(s, fs, limit).state)
    decreases |fs|
  {
    if fs != [] {
      AssembleKeepsInv(s, fs[0], limit);
      var o := Assemble(s, fs[0], limit);
      var r, rest := AssembleAll(s, fs, limit), AssembleAll(o.state, fs[1..], limit);
      assert r.results[0] == o.result;
      forall i | 0 <= i < |fs[1..]| && i < |rest.results| && fs[1..][i].opcode.Continuation?
        ensures rest.results[i] != Failure(InvalidUTF8)
      {
        assert rest.results[i] == r.results[i + 1];
      }
      RunKeepsExact(o.state, fs[1..], limit);
    }
  }

  // ---------- Control frames in between ----------

  function DropControls(fs: seq<Frame>): seq<Frame> {
    if fs == [] then []
    else if IsControl(fs[0].opcode) then DropControls(fs[1..])
    else [fs[0]] + DropControls(fs[1..])
  }

  /** The data frames and errors a run yields. */
  ghost function DataResults(s: State, fs: seq<Frame>, limit: usize): seq<Result<Option<Frame>, Error>>
    decreases |fs|
  {
    if fs == [] then []
    else
      var o := Assemble(s, fs[0], limit);
      (if IsControl(fs[0].opcode) then [] else [o.result]) + DataResults(o.state, fs[1..], limit)
  }

  /** Adding or removing control frames changes neither the messages nor the errors nor the state. */
  lemma {:induction false} ControlsAreTransparent(s: State, fs: seq<Frame>, limit: usize)
    ensures AssembleAll(s, DropControls(fs), limit) ==
            Run(AssembleAll(s, fs, limit).state, DataResults(s, fs, limit))
    decreases |fs|
  {
    if fs != [] {
      var o := Assemble(s, fs[0], limit);
      ControlsAreTransparent(o.state, fs[1..], limit);
      if IsControl(fs[0].opcode) {
        assert [] + DataResults(o.state, fs[1..], limit) == DataResults(o.state, fs[1..], limit);
      } else {
        var d := DropControls(fs);
        assert d[0] == fs[0] && d[1..] == DropControls(fs[1..]);
      }
    }
  }

  // ---------- One-shot reference ----------

  /**
    No message, or the bytes held of the open one and how many have been counted for it. The two numbers differ once a
    piece has failed validation.
   */
  datatype Open = Closed | Message(opcode: OpCode, bytes: seq<byte>, counted: nat)

  datatype Verdict = Verdict(open: Open, result: Result<Option<Frame>, Error>)

  /** The longest valid prefix of `s`. */
  ghost function LongestValid(s: seq<byte>): (p: seq<byte>)
    ensures p <= s && Utf8.Valid(p) && (forall k :: |p| < k <= |s| ==> !Utf8.Valid(s[..k]))
  {
    Utf8.FeedFromStart(s);
    assert forall k | 0 <= k <= |s| && Utf8.Valid(s[..k]) :: k <= |Utf8.Feed([], [], s).text| by {
      forall k | 0 <= k <= |s| && Utf8.Valid(s[..k]) ensures k <= |Utf8.Feed([], [], s).text| {
        Utf8.FeedLongest(s, k);
      }
    }
    Utf8.Feed([], [], s).text
  }

  /** The text the octet-wise reading of `s` leaves is its longest valid prefix. */
  lemma LongestValidIsText(s: seq<byte>)
    ensures Utf8.Feed([], [], s).text == LongestValid(s)
  {
  }

  /** Whether the bytes of a message may still become a message of its kind. */
  ghost predicate MayContinue(op: OpCode, bytes: seq<byte>) {
    op.Text? ==> Utf8.Viable(bytes)
  }

  ghost predicate MayEnd(op: OpCode, bytes: seq<byte>) {
    op.Text? ==> Utf8.Valid(bytes)
  }

  /** Judges every frame by all the bytes of its message at once. */
  ghost function Judge(o: Open, f: Frame, limit: usize): Verdict {
    if IsControl(f.opcode) then Verdict(o, Success(Some(f)))
    else if f.opcode.Continuation? then JudgeNext(o, f, limit)
    else if f.fin then
      if o != Closed then Verdict(o, Failure(InvalidFragment))
      else if !MayEnd(f.opcode, f.payload) then Verdict(o, Failure(InvalidUTF8))
      else Verdict(o, Success(Some(Frame(true, f.opcode, None, f.payload))))
    else
      if |f.payload| >= limit then Verdict(o, Failure(FrameTooLarge))
      else if !MayContinue(f.opcode, f.payload) then Verdict(o, Failure(InvalidUTF8))
      else Verdict(Message(f.opcode, f.payload, |f.payload|), Success(None))
  }

  ghost function JudgeNext(o: Open, f: Frame, limit: usize): Verdict {
    if o.Closed? then Verdict(o, Failure(InvalidContinuationFrame))
    else
      var bytes, counted := o.bytes + f.payload, o.counted + |f.payload|;
      if counted >= limit then Verdict(o, Failure(FrameTooLarge))
      else if !MayContinue(o.opcode, bytes) then
        Verdict(Message(o.opcode, LongestValid(bytes), counted), Failure(InvalidUTF8))
      else if f.fin then
        var payload := if o.opcode.Text? then LongestValid(bytes) else bytes;
        Verdict(Closed, Success(Some(Frame(true, o.opcode, None, payload))))
      else Verdict(Message(o.opcode, bytes, counted), Success(None))
  }

  /** The collector's state when the bytes held of the open message are known. */
  ghost predicate Holds(s: State, o: Open) {
    match o
    case Closed => s.fragments == None
    case Message(op, bytes, counted) =>
      if op.Text? then
        var scan := Utf8.Feed([], [], bytes);
        scan.Good? && s == State(Some(TextFragment(Hold(scan.pending), scan.text, counted)), Text)
      else op.Binary? && counted == |bytes| && s == State(Some(BinaryFragment(bytes)), Binary)
  }

  /** Streaming agrees with judging all the bytes held at once. */
  lemma StreamingRefinesJudge(s: State, o: Open, f: Frame, limit: usize)
    requires Holds(s, o)
    ensures var a, j := Assemble(s, f, limit), Judge(o, f, limit);
            a.result == j.result && Holds(a.state, j.open)
  {
    if f.opcode.Continuation? && o.Message? {
      if o.opcode.Text? {
        NextRefinesJudge(s, o, f, limit);
      }
    } else if f.opcode.Text? {
      Utf8.FeedDecidesViable(f.payload);
    }
  }

  lemma NextRefinesJudge(s: State, o: Open, f: Frame, limit: usize)
    requires Holds(s, o) && o.Message? && o.opcode.Text?
    ensures var a, j := AssembleNext(s, f, limit), JudgeNext(o, f, limit);
            a.result == j.result && Holds(a.state, j.open)
  {
    ScanAll(o.bytes, f.payload);
    hide Utf8.Feed, Utf8.Viable, Utf8.Valid, LongestValid;
  }

  /** The scan of all bytes, from where the bytes held have left it, and of what is kept of them. */
  lemma ScanAll(held: seq<byte>, piece: seq<byte>)
    requires Utf8.Feed([], [], held).Good?
    ensures var before, bytes := Utf8.Feed([], [], held), held + piece;
            && Utf8.Feed(before.text, before.pending, piece) == Utf8.Feed([], [], bytes)
            && (Utf8.Feed([], [], bytes).Good? <==> Utf8.Viable(bytes))
            && Utf8.Feed([], [], bytes).text == LongestValid(bytes)
            && Utf8.Feed([], [], LongestValid(bytes)) == Utf8.Good(LongestValid(bytes), [])
  {
    var bytes := held + piece;
    Utf8.FeedConcat([], [], held, piece);
    Utf8.FeedDecidesViable(bytes);
    LongestValidIsText(bytes);
    hide Utf8.Feed, Utf8.Viable, Utf8.Valid;
    Utf8.FeedValid([], LongestValid(bytes));
    assert [] + LongestValid(bytes) == LongestValid(bytes);
  }

  /** Which frames are refused, and with which error. */
  lemma RefusedExactly(s: State, o: Open, f: Frame, limit: usize)
    requires Holds(s, o)
    ensures var r, data := Assemble(s, f, limit).result, f.opcode.Text? || f.opcode.Binary?;
            var inside := f.opcode.Continuation? && o.Message?;
            && (r == Failure(InvalidFragment) <==> data && f.fin && o.Message?)
            && (r == Failure(InvalidContinuationFrame) <==> f.opcode.Continuation? && o.Closed?)
            && (r == Failure(FrameTooLarge) <==> (data && !f.fin && |f.payload| >= limit) ||
                                                 (inside && o.counted + |f.payload| >= limit))
            && (r == Failure(InvalidUTF8) <==>
                  || (f.opcode.Text? && f.fin && o.Closed? && !Utf8.Valid(f.payload))
                  || (f.opcode.Text? && !f.fin && |f.payload| < limit && !Utf8.Viable(f.payload))
                  || (inside && o.opcode.Text? && o.counted + |f.payload| < limit &&
                      !Utf8.Viable(o.bytes + f.payload)))
            && (r.Failure? ==> r.error in {InvalidFragment, InvalidContinuationFrame, FrameTooLarge, InvalidUTF8})
  {
    StreamingRefinesJudge(s, o, f, limit);
    hide Assemble, Holds, Utf8.Viable, Utf8.Valid, LongestValid;
  }

  ghost function JudgeAll(o: Open, fs: seq<Frame>, limit: usize): (Open, seq<Result<Option<Frame>, Error>>)
    decreases |fs|
  {
    if fs == [] then (o, [])
    else
      var v := Judge(o, fs[0], limit);
      var (end, results) := JudgeAll(v.open, fs[1..], limit);
      (end, [v.result] + results)
  }

  /** Over every run, those that go on after an error included: the same result for every frame. */
  lemma {:induction false} RunRefinesJudge(s: State, o: Open, fs: seq<Frame>, limit: usize)
    requires Holds(s, o)
    ensures var r := AssembleAll(s, fs, limit);
            r.results == JudgeAll(o, fs, limit).1 && Holds(r.state, JudgeAll(o, fs, limit).0)
    decreases |fs|
  {
    if fs != [] {
      StreamingRefinesJudge(s, o, fs[0], limit);
      RunRefinesJudge(Assemble(s, fs[0], limit).state, Judge(o, fs[0], limit).open, fs[1..], limit);
    }
  }

  // ---------- Text in pieces ----------

  function Concat(pieces: seq<seq<byte>>): seq<byte> {
    if pieces == [] then [] else Concat(pieces[..|pieces| - 1]) + pieces[|pieces| - 1]
  }

  /** A text start and continuations, none of them final, with these payloads. */
  function TextFrames(pieces: seq<seq<byte>>): seq<Frame> {
    if pieces == [] then []
    else
      var op := if |pieces| == 1 then Text else Continuation;
      TextFrames(pieces[..|pieces| - 1]) + [Frame(false, op, None, pieces[|pieces| - 1])]
  }

  /** The last of these frames, judged after the others. */
  lemma LastPiece(pieces: seq<seq<byte>>, limit: usize)
    requires pieces != []
    ensures var init := AssembleAll(NEW_STATE, TextFrames(pieces[..|pieces| - 1]), limit);
            var fs := TextFrames(pieces);
            var o := Assemble(init.state, fs[|fs| - 1], limit);
            AssembleAll(NEW_STATE, fs, limit) == Run(o.state, init.results + [o.result])
  {
    var before := TextFrames(pieces[..|pieces| - 1]);
    var last := TextFrames(pieces)[|before|];
    AssembleConcat(NEW_STATE, before, [last], limit);
    var s := AssembleAll(NEW_STATE, before, limit).state;
    var o := Assemble(s, last, limit);
    assert AssembleAll(o.state, [last][1..], limit) == Run(o.state, []);
    assert [o.result] + [] == [o.result];
  }

  /** What the collector holds of these pieces. */
  ghost function Begun(pieces: seq<seq<byte>>): Open {
    if pieces == [] then Closed else Intact(Text, Concat(pieces))
  }

  lemma JudgeLast(pieces: seq<seq<byte>>, limit: usize)
    requires pieces != [] && |Concat(pieces)| < limit
    ensures var before := pieces[..|pieces| - 1];
            var j := Judge(Begun(before), TextFrames(pieces)[|TextFrames(before)|], limit);
            if Utf8.Viable(Concat(pieces)) then j == Verdict(Begun(pieces), Success(None))
            else j.result == Failure(InvalidUTF8)
  {
    hide Utf8.Viable, LongestValid;
    if |pieces| == 1 {
      assert Concat(pieces) == [] + pieces[0] == pieces[0];
    }
  }

  lemma NothingBegun(limit: usize)
    ensures var r := AssembleAll(NEW_STATE, TextFrames([]), limit);
            r.results == [] && Holds(r.state, Begun([]))
  {
  }

  /** Pieces that may still become a text are all accepted, and together they are what the collector holds. */
  lemma {:induction false} ViablePieces(pieces: seq<seq<byte>>, limit: usize)
    requires pieces != [] ==> |Concat(pieces)| < limit && Utf8.Viable(Concat(pieces))
    ensures var r := AssembleAll(NEW_STATE, TextFrames(pieces), limit);
            && Holds(r.state, Begun(pieces))
            && |r.results| == |pieces| && forall i :: 0 <= i < |pieces| ==> r.results[i] == Success(None)
    decreases |pieces|
  {
    if pieces == [] {
      NothingBegun(limit);
    } else {
      var init, last := pieces[..|pieces| - 1], pieces[|pieces| - 1];
      if init != [] {
        ViablePrefix(Concat(init), last);
      }
      assert |Concat(init)| <= |Concat(pieces)| && |TextFrames(pieces)| == |TextFrames(init)| + 1;
      hide *;
      ViablePieces(init, limit);
      LastPiece(pieces, limit);
      JudgeLast(pieces, limit);
      StreamingRefinesJudge(AssembleAll(NEW_STATE, TextFrames(init), limit).state, Begun(init),
                            TextFrames(pieces)[|TextFrames(init)|], limit);
    }
  }

  /**
    Streaming validation is one-shot validation of the concatenation, for every way of cutting the bytes: the first
    piece after which no valid text begins with the bytes so far is refused, and none before it.
   */
  lemma StreamingText(pieces: seq<seq<byte>>, limit: usize)
    requires pieces != [] && |Concat(pieces)| < limit
    requires |pieces| > 1 ==> Utf8.Viable(Concat(pieces[..|pieces| - 1]))
    ensures var r := AssembleAll(NEW_STATE, TextFrames(pieces), limit);
            && |r.results| == |pieces|
            && (forall i :: 0 <= i < |pieces| - 1 ==> r.results[i] == Success(None))
            && r.results[|pieces| - 1] == (if Utf8.Viable(Concat(pieces)) then Success(None) else Failure(InvalidUTF8))
  {
    var init := pieces[..|pieces| - 1];
    assert |Concat(init)| <= |Concat(pieces)| && |TextFrames(pieces)| == |TextFrames(init)| + 1;
    hide *;
    ViablePieces(init, limit);
    LastPiece(pieces, limit);
    JudgeLast(pieces, limit);
    StreamingRefinesJudge(AssembleAll(NEW_STATE, TextFrames(init), limit).state, Begun(init),
                          TextFrames(pieces)[|TextFrames(init)|], limit);
  }

  /** Until then the buffer is the longest valid prefix of the bytes so far, and the held bytes are the rest. */
  lemma StreamingBuffer(pieces: seq<seq<byte>>, limit: usize)
    requires pieces != [] && |Concat(pieces)| < limit && Utf8.Viable(Concat(pieces))
    ensures var s := AssembleAll(NEW_STATE, TextFrames(pieces), limit).state;
            && s.fragments.Some? && s.fragments.value.TextFragment?
            && var t := s.fragments.value;
               && t.buffer == LongestValid(Concat(pieces)) && t.buffer + Held(t.incomplete) == Concat(pieces)
               && t.messageLen == |Concat(pieces)|
  {
    var all := Concat(pieces);
    ViablePieces(pieces, limit);
    LongestValidIsText(all);
    Utf8.FeedFromStart(all);
  }

  // ---------- Whole messages ----------

  /** The payloads of the continuations in `fs`, in order. */
  function Pieces(fs: seq<Frame>): seq<byte> {
    if fs == [] then []
    else (if fs[0].opcode.Continuation? then fs[0].payload else []) + Pieces(fs[1..])
  }

  ghost predicate OpensMessage(f: Frame, limit: usize) {
    (f.opcode.Text? || f.opcode.Binary?) && !f.fin && |f.payload| < limit && MayContinue(f.opcode, f.payload)
  }

  /** `f` neither opens nor ends a fragmented message. */
  ghost predicate StaysInside(f: Frame, limit: usize) {
    !OpensMessage(f, limit) && !(f.opcode.Continuation? && f.fin)
  }

  lemma ViablePrefix(a: seq<byte>, b: seq<byte>)
    requires Utf8.Viable(a + b)
    ensures Utf8.Viable(a)
  {
    var t :| Utf8.Valid(a + b + t);
    assert a + (b + t) == a + b + t;
  }

  lemma ValidIsViable(s: seq<byte>)
    requires Utf8.Valid(s)
    ensures Utf8.Viable(s) && LongestValid(s) == s
  {
    assert s + [] == s;
    assert s[..|s|] == s;
  }

  /** A message none of whose bytes is lost. */
  function Intact(op: OpCode, bytes: seq<byte>): Open {
    Message(op, bytes, |bytes|)
  }

  /** Inside a message whose bytes fit and may continue, the bytes add up, whatever else arrives in between. */
  lemma {:induction false} BytesAddUp(op: OpCode, bytes: seq<byte>, fs: seq<Frame>, limit: usize)
    requires forall f :: f in fs ==> StaysInside(f, limit)
    requires |bytes + Pieces(fs)| < limit && MayContinue(op, bytes + Pieces(fs))
    ensures JudgeAll(Intact(op, bytes), fs, limit).0 == Intact(op, bytes + Pieces(fs))
    decreases |fs|
  {
    if fs == [] {
      assert bytes + Pieces(fs) == bytes;
    } else {
      var piece := if fs[0].opcode.Continuation? then fs[0].payload else [];
      Assoc(bytes, piece, Pieces(fs[1..]));
      if op.Text? {
        ViablePrefix(bytes + piece, Pieces(fs[1..]));
      }
      JudgeInside(op, bytes, fs[0], limit);
      BytesAddUp(op, bytes + piece, fs[1..], limit);
    }
  }

  lemma JudgeInside(op: OpCode, bytes: seq<byte>, f: Frame, limit: usize)
    requires StaysInside(f, limit)
    requires var piece := if f.opcode.Continuation? then f.payload else [];
             |bytes + piece| < limit && MayContinue(op, bytes + piece)
    ensures var piece := if f.opcode.Continuation? then f.payload else [];
            Judge(Intact(op, bytes), f, limit).open == Intact(op, bytes + piece)
  {
    assert bytes + [] == bytes;
  }

  /** What the final continuation returns after `start` and `inside`, whatever state the collector was in before. */
  ghost function FinalResult(s: State, start: Frame, inside: seq<Frame>, last: Frame, limit: usize)
    : Result<Option<Frame>, Error>
  {
    Assemble(AssembleAll(Assemble(s, start, limit).state, inside, limit).state, last, limit).result
  }

  /**
    A fragmented message is delivered as the concatenation of its pieces if and only if that is below the limit and, for
    text, valid. What arrives between the pieces (controls, frames that are refused) makes no difference.
   */
  lemma MessageDelivery(s: State, start: Frame, inside: seq<Frame>, last: Frame, limit: usize)
    requires OpensMessage(start, limit) && last.opcode.Continuation? && last.fin
    requires forall f :: f in inside ==> StaysInside(f, limit) && WellFormed(f, limit)
    ensures var total := start.payload + Pieces(inside) + last.payload;
            FinalResult(s, start, inside, last, limit) == Success(Some(Frame(true, start.opcode, None, total))) <==>
            |total| < limit && MayEnd(start.opcode, total)
  {
    var total := start.payload + Pieces(inside) + last.payload;
    if |total| < limit && MayEnd(start.opcode, total) {
      if start.opcode.Text? {
        ValidIsViable(total);
      }
      DeliversText(s, start, inside, last, limit);
    }
    var begun := Assemble(s, start, limit).state;
    OpensInv(s, start, limit);
    RunKeepsInv(begun, inside, limit);
    FinalContinuation(AssembleAll(begun, inside, limit).state, last, limit);
    if FinalResult(s, start, inside, last, limit) == Success(Some(Frame(true, start.opcode, None, total))) {
      assert |total| < limit && MayEnd(start.opcode, total);
    }
  }

  lemma OpensInv(s: State, start: Frame, limit: usize)
    requires OpensMessage(start, limit)
    ensures Inv(Assemble(s, start, limit).state, limit)
    ensures Holds(Assemble(s, start, limit).state, Intact(start.opcode, start.payload))
  {
    if start.opcode.Text? {
      Utf8.FeedDecidesViable(start.payload);
      Utf8.FeedKeeps([], [], start.payload);
      Utf8.FeedTextValid([], [], start.payload);
    }
  }

  lemma FinalContinuation(s: State, last: Frame, limit: usize)
    requires Inv(s, limit) && last.opcode.Continuation?
    ensures var r := Assemble(s, last, limit).result;
            r.Success? && r.value.Some? ==>
              |r.value.value.payload| < limit && (r.value.value.opcode.Text? ==> Utf8.Valid(r.value.value.payload))
  {
    if s.fragments.Some? && s.fragments.value.TextFragment? {
      var t := s.fragments.value;
      Utf8.FeedKeeps(t.buffer, Held(t.incomplete), last.payload);
      Utf8.FeedTextValid(t.buffer, Held(t.incomplete), last.payload);
    }
  }

  /**
    As long as the text could still be continued, a message that ends inside a code point is delivered too, without the
    bytes of that code point.
   */
  lemma DeliversText(s: State, start: Frame, inside: seq<Frame>, last: Frame, limit: usize)
    requires OpensMessage(start, limit) && last.opcode.Continuation? && last.fin
    requires forall f :: f in inside ==> StaysInside(f, limit)
    requires var total := start.payload + Pieces(inside) + last.payload;
             |total| < limit && MayContinue(start.opcode, total)
    ensures var total := start.payload + Pieces(inside) + last.payload;
            FinalResult(s, start, inside, last, limit) ==
            Success(Some(Frame(true, start.opcode, None, if start.opcode.Text? then LongestValid(total) else total)))
    ensures var total := start.payload + Pieces(inside) + last.payload;
            MayEnd(start.opcode, total) ==>
              FinalResult(s, start, inside, last, limit) == Success(Some(Frame(true, start.opcode, None, total)))
  {
    var op, first := start.opcode, start.payload;
    var total := start.payload + Pieces(inside) + last.payload;
    OpensInv(s, start, limit);
    if start.opcode.Text? {
      ViablePrefix(start.payload + Pieces(inside), last.payload);
      if Utf8.Valid(total) {
        ValidIsViable(total);
      }
    }
    BytesAddUp(op, first, inside, limit);
    RunRefinesJudge(Assemble(s, start, limit).state, Intact(op, first), inside, limit);
    StreamingRefinesJudge(AssembleAll(Assemble(s, start, limit).state, inside, limit).state,
                          Intact(op, first + Pieces(inside)), last, limit);
  }

  /**
    A non-final Text or Binary frame is treated as if no message were open. What was held of an open message is dropped
    without an error exactly if the frame opens a message of its own; otherwise the frame is refused and nothing
    changes.
   */
  lemma OpeningReplaces(s: State, f: Frame, limit: usize)
    requires (f.opcode.Text? || f.opcode.Binary?) && !f.fin
    ensures var o := Assemble(s, f, limit);
            && o.result == Assemble(NEW_STATE, f, limit).result
            && (o.result == Success(None) <==> OpensMessage(f, limit))
            && (OpensMessage(f, limit) ==> o.state == Assemble(NEW_STATE, f, limit).state &&
                                           Holds(o.state, Intact(f.opcode, f.payload)))
            && (!OpensMessage(f, limit) ==> o.result.Failure? && o.state == s)
  {
    if f.opcode.Text? {
      Utf8.FeedDecidesViable(f.payload);
    }
    if OpensMessage(f, limit) {
      OpensInv(s, f, limit);
    }
  }

  /** A final one is refused as long as a message is open, and the message stays open. */
  lemma FinalIsRefusedInside(s: State, f: Frame, limit: usize)
    requires (f.opcode.Text? || f.opcode.Binary?) && f.fin
    ensures Assemble(s, f, limit).state == s
    ensures Assemble(s, f, limit).result == Failure(InvalidFragment) <==> s.fragments.Some?
  {
  }

  /** Two frames that send "A" and half of a code point are delivered as "A". */
  lemma TruncatedTextIsDelivered(limit: usize)
    requires limit > 2
    ensures var start, last := Frame(false, Text, None, [0x41]), Frame(true, Continuation, None, [0xC3]);
            && !Utf8.Valid([0x41, 0xC3])
            && FinalResult(NEW_STATE, start, [], last, limit) == Success(Some(Frame(true, Text, None, [0x41])))
  {
    Utf8.DecodeDecidesValid([0x41, 0xC3]);
    assert Utf8.Feed([], [], [0x41]) == Utf8.Good([0x41], []) by {
      assert [] + [0x41] == [0x41] && [] + [0x41 as byte] == [0x41];
    }
    assert Utf8.Feed([0x41], [], [0xC3]) == Utf8.Good([0x41], [0xC3]);
  }

  /** A piece that does not fit is refused, and if the caller reads on the message is delivered without it. */
  lemma RefusedPieceIsSkipped(piece: seq<byte>, limit: usize)
    requires limit > 1 && |piece| == limit - 1
    ensures var start, next := Frame(false, Binary, None, [0x41]), Frame(false, Continuation, None, piece);
            var last := Frame(true, Continuation, None, []);
            && FinalResult(NEW_STATE, start, [next], last, limit) == Success(Some(Frame(true, Binary, None, [0x41])))
            && AssembleAll(NEW_STATE, [start, next], limit).results == [Success(None), Failure(FrameTooLarge)]
  {
    var start, next := Frame(false, Binary, None, [0x41]), Frame(false, Continuation, None, piece);
    var s := Assemble(NEW_STATE, start, limit).state;
    assert Assemble(s, next, limit) == Outcome(s, Failure(FrameTooLarge));
    assert [next][1..] == [] && [start, next][1..] == [next];
    assert AssembleAll(s, [next], limit) == Run(s, [Failure(FrameTooLarge)]);
    var data: seq<byte> := [0x41];
    assert data + [] == data;
  }

  /** A piece that fails validation is refused, and if the caller reads on the message is delivered without it. */
  lemma InvalidPieceIsSkipped(limit: usize)
    requires limit > 3
    ensures var start, next := Frame(false, Text, None, [0x41]), Frame(false, Continuation, None, [0xFF]);
            var last := Frame(true, Continuation, None, [0x42]);
            && AssembleAll(NEW_STATE, [start, next], limit).results == [Success(None), Failure(InvalidUTF8)]
            && FinalResult(NEW_STATE, start, [next], last, limit) ==
               Success(Some(Frame(true, Text, None, [0x41, 0x42])))
  {
    var start, next := Frame(false, Text, None, [0x41]), Frame(false, Continuation, None, [0xFF]);
    var a: seq<byte> := [0x41];
    assert Utf8.Feed([], [], a) == Utf8.Good(a, []) by {
      assert [] + a == a;
    }
    assert Utf8.Feed(a, [], [0xFF]) == Utf8.Bad(a);
    assert Utf8.Feed(a, [], [0x42]) == Utf8.Good([0x41, 0x42], []) by {
      assert a + [0x42] == [0x41, 0x42];
    }
    var s, s2 := State(Some(TextFragment(None, a, 1)), Text), State(Some(TextFragment(None, a, 2)), Text);
    assert Assemble(NEW_STATE, start, limit) == Outcome(s, Success(None));
    assert Assemble(s, next, limit) == Outcome(s2, Failure(InvalidUTF8));
    assert [next][1..] == [] && [start, next][1..] == [next];
    assert AssembleAll(s, [next], limit) == Run(s2, [Failure(InvalidUTF8)]);
  }
}
