/** Reassembly of fragmented messages (`Fragments`, `src/fragment.rs`). */
module Fragmentation {
  import opened Bytes
  import opened Errors
  import opened Frames
  import Utf8

  // ---------- State ----------

  datatype Fragment =
    | TextFragment(incomplete: Option<seq<byte>>, buffer: seq<byte>, messageLen: nat)
    | BinaryFragment(data: seq<byte>)

  datatype State = State(fragments: Option<Fragment>, opcode: OpCode)

  const NEW_STATE := State(None, Close)

  /** The held bytes of an incomplete code point. */
  function Held(incomplete: Option<seq<byte>>): seq<byte> {
    if incomplete.Some? then incomplete.value else []
  }

  function Hold(pending: seq<byte>): Option<seq<byte>> {
    if pending == [] then None else Some(pending)
  }

  /** What every reachable state satisfies. */
  ghost predicate Inv(s: State, limit: nat) {
    match s.fragments
    case None => true
    case Some(TextFragment(incomplete, buffer, len)) =>
      && s.opcode == Text
      && Utf8.Valid(buffer)
      && (incomplete.Some? ==> Utf8.IsPartial(incomplete.value))
      && |buffer| + |Held(incomplete)| <= len < limit
    case Some(BinaryFragment(data)) => s.opcode == Binary && |data| < limit
  }

  /** No byte of the open message has been dropped. */
  ghost predicate Exact(s: State) {
    match s.fragments
    case Some(TextFragment(incomplete, buffer, len)) => |buffer| + |Held(incomplete)| == len
    case _ => true
  }

  /** The part of `Inv` the code relies on to resume a code point. */
  ghost predicate Resumable(s: State) {
    s.fragments.Some? && s.fragments.value.TextFragment? && s.fragments.value.incomplete.Some? ==>
      Utf8.IsPartial(s.fragments.value.incomplete.value)
  }

  // ---------- One step ----------

  datatype Outcome = Outcome(state: State, result: Result<Option<Frame>, Error>)

  /** One frame, with text read octet by octet. */
  ghost function Assemble(s: State, f: Frame, limit: usize): Outcome {
    match f.opcode
    case Text => if f.fin then AssembleWhole(s, f) else AssembleStart(s, f, limit)
    case Binary => if f.fin then AssembleWhole(s, f) else AssembleStart(s, f, limit)
    case Continuation => AssembleNext(s, f, limit)
    case _ => Outcome(s, Success(Some(f)))
  }

  ghost function AssembleWhole(s: State, f: Frame): Outcome {
    if s.fragments.Some? then Outcome(s, Failure(InvalidFragment))
    else if f.opcode.Text? && !Utf8.Valid(f.payload) then Outcome(s, Failure(InvalidUTF8))
    else Outcome(s, Success(Some(Frame(true, f.opcode, None, f.payload))))
  }

  ghost function AssembleStart(s: State, f: Frame, limit: usize): Outcome {
    if |f.payload| >= limit then Outcome(s, Failure(FrameTooLarge))
    else if f.opcode.Binary? then Outcome(State(Some(BinaryFragment(f.payload)), f.opcode), Success(None))
    else
      match Utf8.Feed([], [], f.payload)
      case Bad(_) => Outcome(s, Failure(InvalidUTF8))
      case Good(text, pending) =>
        Outcome(State(Some(TextFragment(Hold(pending), text, |f.payload|)), f.opcode), Success(None))
  }

  ghost function AssembleNext(s: State, f: Frame, limit: usize): Outcome {
    match s.fragments
    case None => Outcome(s, Failure(InvalidContinuationFrame))
    case Some(TextFragment(incomplete, buffer, len)) =>
      if len + |f.payload| >= limit then Outcome(s, Failure(FrameTooLarge))
      else
        (match Utf8.Feed(buffer, Held(incomplete), f.payload)
         case Bad(text) =>
           Outcome(s.(fragments := Some(TextFragment(None, text, len + |f.payload|))), Failure(InvalidUTF8))
         case Good(text, pending) =>
           if f.fin then Deliver(s, text)
           else Outcome(s.(fragments := Some(TextFragment(Hold(pending), text, len + |f.payload|))), Success(None)))
    case Some(BinaryFragment(data)) =>
      if |data + f.payload| >= limit then Outcome(s, Failure(FrameTooLarge))
      else if f.fin then Deliver(s, data + f.payload)
      else Outcome(s.(fragments := Some(BinaryFragment(data + f.payload))), Success(None))
  }

  function Deliver(s: State, payload: seq<byte>): Outcome {
    Outcome(s.(fragments := None), Success(Some(Frame(true, s.opcode, None, payload))))
  }

  /** Held bytes can always be resumed. */
  lemma KeepsResumable(s: State, f: Frame, limit: usize)
    requires Resumable(s)
    ensures Resumable(Assemble(s, f, limit).state)
    ensures Assemble(s, f, limit).result != Failure(IoError)
  {
    if !f.fin && f.opcode.Text? {
      Utf8.FeedKeeps([], [], f.payload);
    } else if f.opcode.Continuation? && s.fragments.Some? && s.fragments.value.TextFragment? {
      var t := s.fragments.value;
      Utf8.FeedKeeps(t.buffer, Held(t.incomplete), f.payload);
    }
  }

  // ---------- The code ----------

  /** The continuation of a text message: resume the held code point, then decode the rest. */
  method DecodeNext(incomplete: Option<seq<byte>>, buffer: seq<byte>, payload: seq<byte>)
    returns (ok: bool, held: Option<seq<byte>>, input: seq<byte>)
    requires incomplete.Some? ==> Utf8.IsPartial(incomplete.value)
    ensures Utf8.Feed(buffer, Held(incomplete), payload) == if ok then Utf8.Good(input, Held(held)) else Utf8.Bad(input)
    ensures ok ==> held == Hold(Held(held))
    ensures !ok ==> held == None
  {
    held, input := None, buffer;
    var tail := payload;
    if incomplete.Some? {
      Utf8.TryCompleteRefines(buffer, incomplete.value, payload);
      match Utf8.TryComplete(incomplete.value, payload)
      case Text(text, rest) =>
        tail := rest;
        input := input + text;
      case Error => return false, None, input;
      case NeedMore(longer) =>
        tail := [];
        held := Some(longer);
    }
    Utf8.DecodeRefines(input, tail);
    match Utf8.Decode(tail)
    case Ok => ok, input := true, input + tail;
    case Incomplete(k) => ok, input, held := true, input + tail[..k], Some(tail[k..]);
    case Invalid(k) => ok, input, held := false, input + tail[..k], None;
  }

  class Fragments {
    var fragments: Option<Fragment>
    var opcode: OpCode

    constructor ()
      ensures Now() == NEW_STATE
    {
      fragments, opcode := None, Close;
    }

    ghost function Now(): State
      reads this
    {
      State(fragments, opcode)
    }

    /** `accumulate` */
    method Accumulate(frame: Frame, maxMessageSize: usize) returns (r: Result<Option<Frame>, Error>)
      requires Resumable(Now())
      modifies this
      ensures Resumable(Now()) && r != Failure(IoError)
      ensures Outcome(Now(), r) == Assemble(old(Now()), frame, maxMessageSize)
    {
      KeepsResumable(Now(), frame, maxMessageSize);
      match frame.opcode
      case Text =>
        r := Unfragmented(frame, maxMessageSize);
      case Binary =>
        r := Unfragmented(frame, maxMessageSize);
      case Continuation =>
        r := Continue(frame, maxMessageSize);
      case _ =>
        r := Success(Some(frame));
    }

    /** The arm for Text and Binary frames. */
    method Unfragmented(frame: Frame, maxMessageSize: usize) returns (r: Result<Option<Frame>, Error>)
      requires frame.opcode.Text? || frame.opcode.Binary?
      modifies this
      ensures Outcome(Now(), r) == Assemble(old(Now()), frame, maxMessageSize)
    {
      Utf8.DecodeRefines([], frame.payload);
      Utf8.DecodeDecidesValid(frame.payload);
      assert [] + frame.payload == frame.payload;
      var decoded := Utf8.Decode(frame.payload);
      if frame.fin {
        if fragments.Some? {
          return Failure(InvalidFragment);
        }
        if frame.opcode == Text && !decoded.Ok? {
          return Failure(InvalidUTF8);
        }
        return Success(Some(Frame(true, frame.opcode, None, frame.payload)));
      }
      if |frame.payload| >= maxMessageSize {
        return Failure(FrameTooLarge);
      }
      if frame.opcode == Text {
        match decoded
        case Ok =>
          fragments := Some(TextFragment(None, frame.payload, |frame.payload|));
        case Incomplete(k) =>
          assert [] + frame.payload[..k] == frame.payload[..k];
          fragments := Some(TextFragment(Some(frame.payload[k..]), frame.payload[..k], |frame.payload|));
        case Invalid(_) =>
          return Failure(InvalidUTF8);
      } else {
        fragments := Some(BinaryFragment(frame.payload));
      }
      opcode := frame.opcode;
      r := Success(None);
    }

    /** The arm for Continuation frames. */
    method Continue(frame: Frame, maxMessageSize: usize) returns (r: Result<Option<Frame>, Error>)
      requires frame.opcode.Continuation? && Resumable(Now())
      modifies this
      ensures Outcome(Now(), r) == Assemble(old(Now()), frame, maxMessageSize)
    {
      match fragments {
      case None =>
        return Failure(InvalidContinuationFrame);
      case Some(TextFragment(incomplete, buffer, messageLen)) =>
        if messageLen + |frame.payload| >= USIZE_LIMIT {
          return Failure(FrameTooLarge);
        }
        var newMessageLen := messageLen + |frame.payload|;
        if newMessageLen >= maxMessageSize {
          return Failure(FrameTooLarge);
        }
        var ok, held, input := DecodeNext(incomplete, buffer, frame.payload);
        fragments := Some(TextFragment(held, input, newMessageLen));
        if !ok {
          return Failure(InvalidUTF8);
        }
        if frame.fin {
          fragments := None;
          return Success(Some(Frame(true, opcode, None, input)));
        }
      case Some(BinaryFragment(data)) =>
        if |data| + |frame.payload| >= USIZE_LIMIT {
          return Failure(FrameTooLarge);
        }
        if |data| + |frame.payload| >= maxMessageSize {
          return Failure(FrameTooLarge);
        }
        fragments := Some(BinaryFragment(data + frame.payload));
        if frame.fin {
          fragments := None;
          return Success(Some(Frame(true, opcode, None, data + frame.payload)));
        }
      }
      r := Success(None);
    }
  }
}
