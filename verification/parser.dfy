/** Parsing frames from the transport and deciding what to answer (`ReadHalf`, `src/lib.rs`). */
module Parsing {
  import opened Bytes
  import opened Errors
  import opened Frames
  import opened Masking
  import opened Streams
  import CloseCodes
  import Utf8

  // ---------- Header bits ----------

  predicate HighBit(b: byte) {
    b >= 0x80
  }

  predicate ReservedBits(b: byte) {
    b as nat / 16 % 8 != 0
  }

  function LowNibble(b: byte): byte {
    (b as nat % 16) as byte
  }

  function LowSeven(b: byte): nat {
    b as nat % 128
  }

  /** The arithmetic above is the bit masking of the source. */
  lemma HighBitMask(b: bv8)
    ensures HighBit(b as byte) <==> b & 0x80 != 0
  {
  }

  lemma ReservedBitsMask(b: bv8)
    ensures ReservedBits(b as byte) <==> b & 0x70 != 0
  {
  }

  lemma LowNibbleMask(b: bv8)
    ensures LowNibble(b as byte) as nat == (b & 0x0F) as nat
  {
  }

  lemma LowSevenMask(b: bv8)
    ensures LowSeven(b as byte) == (b & 0x7F) as nat
  {
  }

  // ---------- The meaning of a byte string ----------

  /** A frame and the bytes after it, or an error and the bytes it leaves unread. */
  datatype Parsed = Got(frame: Frame, rest: seq<byte>) | Failed(error: Error, rest: seq<byte>)

  /** What one call makes of a stream that holds `input` up to its end. */
  function Parse(input: seq<byte>, limit: usize): Parsed {
    if |input| < 2 then Failed(UnexpectedEOF, input)
    else if ReservedBits(input[0]) then Failed(ReservedBitsNotZero, input)
    else
      match ToOpCode(LowNibble(input[0]))
      case Failure(e) => Failed(e, input)
      case Success(op) =>
        ParseLength(HighBit(input[0]), op, HighBit(input[1]), LowSeven(input[1]), input[2..], limit)
  }

  function ExtraBytes(lengthCode: nat): nat {
    if lengthCode == 126 then 2 else if lengthCode == 127 then 8 else 0
  }

  function MaskBytes(masked: bool): nat {
    if masked then 4 else 0
  }

  function ParseLength(fin: bool, op: OpCode, masked: bool, lengthCode: nat, input: seq<byte>, limit: usize): Parsed {
    var extra := ExtraBytes(lengthCode);
    var size := extra + MaskBytes(masked);
    if |input| < size then Failed(UnexpectedEOF, input)
    else
      var len := if extra == 0 then lengthCode else FromBigEndian(input[..extra]);
      var mask := if masked then Some(input[extra..size]) else None;
      ParsePayload(fin, op, mask, len, input[size..], limit)
  }

  function ParsePayload(fin: bool, op: OpCode, mask: Option<Key>, len: nat, input: seq<byte>, limit: usize): Parsed {
    if IsControl(op) && !fin then Failed(ControlFrameFragmented, input)
    else if op.Ping? && len > 125 then Failed(PingFrameTooLarge, input)
    else if len >= limit then Failed(FrameTooLarge, input)
    else if |input| < len then Failed(UnexpectedEOF, input)
    else Got(Frame(fin, op, mask, input[..len]), input[len..])
  }

  /** What every parsed frame satisfies. */
  predicate WellFormed(f: Frame, limit: nat) {
    && (IsControl(f.opcode) ==> f.fin)
    && (f.opcode.Ping? ==> |f.payload| <= 125)
    && |f.payload| < limit
  }

  /** `a` is what is left of `b` after some bytes were taken off the front. */
  ghost predicate IsSuffix(a: seq<byte>, b: seq<byte>) {
    a == b || (b != [] && IsSuffix(a, b[1..]))
  }

  lemma {:induction false} DropIsSuffix(b: seq<byte>, k: nat)
    requires k <= |b|
    ensures IsSuffix(b[k..], b)
    decreases k
  {
    if k > 0 {
      DropIsSuffix(b[1..], k - 1);
      assert b[1..][k - 1..] == b[k..];
    } else {
      assert b[0..] == b;
    }
  }

  lemma SelfSuffix(b: seq<byte>)
    ensures IsSuffix(b, b)
  {
  }

  lemma {:induction false} SuffixTrans(a: seq<byte>, b: seq<byte>, c: seq<byte>)
    requires IsSuffix(a, b) && IsSuffix(b, c)
    ensures IsSuffix(a, c)
    decreases |c|
  {
    if b != c {
      SuffixTrans(a, b, c[1..]);
    }
  }

  lemma {:induction false} SuffixLength(a: seq<byte>, b: seq<byte>)
    requires IsSuffix(a, b)
    ensures |a| <= |b|
    decreases |b|
  {
    if a != b {
      SuffixLength(a, b[1..]);
    }
  }

  /** A parse takes bytes off the front only; a frame takes at least its 2-byte header. */
  lemma ParseProgress(input: seq<byte>, limit: usize)
    ensures var p := Parse(input, limit);
            IsSuffix(p.rest, input) && (p.Got? ==> |p.rest| + 2 <= |input| && WellFormed(p.frame, limit))
  {
    if |input| >= 2 && !ReservedBits(input[0]) && ToOpCode(LowNibble(input[0])).Success? {
      var op := ToOpCode(LowNibble(input[0])).value;
      LengthProgress(HighBit(input[0]), op, HighBit(input[1]), LowSeven(input[1]), input[2..], limit);
      DropIsSuffix(input, 2);
      var rest := Parse(input, limit).rest;
      SuffixLength(rest, input[2..]);
      SuffixTrans(rest, input[2..], input);
    }
  }

  lemma LengthProgress(fin: bool, op: OpCode, masked: bool, lengthCode: nat, input: seq<byte>, limit: usize)
    ensures var p := ParseLength(fin, op, masked, lengthCode, input, limit);
            IsSuffix(p.rest, input) && (p.Got? ==> WellFormed(p.frame, limit))
  {
    hide ParsePayload, FromBigEndian, IsSuffix, WellFormed;
    SelfSuffix(input);
    var size := ExtraBytes(lengthCode) + MaskBytes(masked);
    if size <= |input| {
      var extra := ExtraBytes(lengthCode);
      var len := if extra == 0 then lengthCode else FromBigEndian(input[..extra]);
      var mask := if masked then Some(input[extra..size]) else None;
      PayloadProgress(fin, op, mask, len, input[size..], limit);
      DropIsSuffix(input, size);
      SuffixTrans(ParsePayload(fin, op, mask, len, input[size..], limit).rest, input[size..], input);
    }
  }

  lemma PayloadProgress(fin: bool, op: OpCode, mask: Option<Key>, len: nat, input: seq<byte>, limit: usize)
    ensures var p := ParsePayload(fin, op, mask, len, input, limit);
            IsSuffix(p.rest, input) && (p.Got? ==> WellFormed(p.frame, limit))
  {
    if len <= |input| {
      DropIsSuffix(input, len);
    }
  }

  /** What the bytes alone cannot make go wrong. */
  lemma ParseErrors(input: seq<byte>, limit: usize)
    ensures Parse(input, limit).Failed? ==> Parse(input, limit).error !in {SendError, IoError, ConnectionClosed}
  {
  }

  // ---------- The read half ----------

  datatype Role = Server | Client

  datatype ReadConfig = ReadConfig(role: Role, autoApplyMask: bool, autoClose: bool, autoPong: bool)

  /** What `read_frame_inner` reports and the frame it obliges its caller to send. */
  datatype Reaction = Reaction(result: Result<Option<Frame>, Error>, reply: Option<Frame>)

  /** The frame as the application sees it. */
  function Received(cfg: ReadConfig, f: Frame): Frame {
    if cfg.role.Server? && cfg.autoApplyMask then Unmasked(f) else f
  }

  /**
    `g` is how the application sees the frame `f`: a server that applies masks sees octet `i` of the payload XORed with
    octet `i` modulo 4 of the key, anybody else the octets as they came; the key and all else stay.
   */
  ghost predicate SeenAs(cfg: ReadConfig, f: Frame, g: Frame) {
    && g.fin == f.fin && g.opcode == f.opcode && g.mask == f.mask && |g.payload| == |f.payload|
    && forall i :: 0 <= i < |f.payload| ==>
         g.payload[i] == if cfg.role.Server? && cfg.autoApplyMask && f.mask.Some?
                         then XorByte(f.payload[i], f.mask.value[i % 4]) else f.payload[i]
  }

  lemma SeenExactly(cfg: ReadConfig, f: Frame, g: Frame)
    ensures SeenAs(cfg, f, g) <==> g == Received(cfg, f)
  {
    if SeenAs(cfg, f, g) {
      assert g.payload == Received(cfg, f).payload;
    }
  }

  ghost function React(cfg: ReadConfig, f: Frame): Reaction {
    var g := Received(cfg, f);
    if g.opcode.Close? && cfg.autoClose then AnswerClose(g)
    else if g.opcode.Ping? && cfg.autoPong then Reaction(Success(None), Some(PongFrame(g.payload)))
    else Reaction(Success(Some(g)), None)
  }

  /** RFC 6455, sections 5.5.1 and 7.4: an empty body, or a status code that may be sent and a UTF-8 reason. */
  ghost predicate ProperCloseBody(p: seq<byte>) {
    p == [] || (|p| >= 2 && Utf8.Valid(p[2..]) && CloseCodes.MaySend(FromBigEndian(p[..2])))
  }

  ghost function AnswerClose(g: Frame): Reaction {
    var p := g.payload;
    if ProperCloseBody(p) then Reaction(Success(Some(g)), Some(CloseRaw(p)))
    else if |p| == 1 then Reaction(Failure(InvalidCloseFrame), None)
    else if !Utf8.Valid(p[2..]) then Reaction(Failure(InvalidUTF8), None)
    else Reaction(Failure(InvalidCloseCode), Some(CloseFrame(1002, p[2..])))
  }

  /** The result and what is left ahead are those of `p`, unless the transport failed. */
  ghost predicate Agrees(r: Result<Frame, Error>, left: seq<byte>, p: Parsed) {
    r != Failure(IoError) ==> left == p.rest && r == if p.Got? then Success(p.frame) else Failure(p.error)
  }

  /** `read_frame_inner` on the outcome of a parse. */
  ghost function ReactTo(cfg: ReadConfig, p: Parsed): Reaction {
    match p
    case Got(f, _) => React(cfg, f)
    case Failed(e, _) => Reaction(Failure(e), None)
  }

  /**
    What a call leaves of `input` when the transport fails: everything, or what follows the first two bytes, or what
    follows the whole header.
   */
  ghost predicate CutShort(input: seq<byte>, left: seq<byte>) {
    left == input || (|input| >= 2 && CutBody(LowSeven(input[1]), HighBit(input[1]), input[2..], left))
  }

  lemma NothingCut(input: seq<byte>)
    ensures CutShort(input, input)
  {
  }

  ghost predicate CutBody(lengthCode: nat, masked: bool, body: seq<byte>, left: seq<byte>) {
    var size := ExtraBytes(lengthCode) + MaskBytes(masked);
    left == body || (|body| >= size && left == body[size..])
  }

  lemma PrefixSlices(buffer: seq<byte>, unread: seq<byte>, extra: nat, size: nat)
    requires extra <= size <= |buffer|
    ensures var s := buffer + unread;
            && buffer[..extra] == s[..extra] && buffer[extra..size] == s[extra..size]
            && buffer[size..] + unread == s[size..]
  {
  }

  class ReadHalf {
    var role: Role
    var autoApplyMask: bool
    var autoClose: bool
    var autoPong: bool
    var maxMessageSize: usize
    /** Bytes read from the transport and not consumed. */
    var buffer: seq<byte>

    constructor (role: Role)
      ensures Config() == ReadConfig(role, true, true, true)
      ensures maxMessageSize == 0x400_0000 && buffer == []
    {
      this.role := role;
      autoApplyMask, autoClose, autoPong := true, true, true;
      maxMessageSize := 0x400_0000;
      buffer := [];
    }

    ghost function Config(): ReadConfig
      reads this
    {
      ReadConfig(role, autoApplyMask, autoClose, autoPong)
    }

    /** Everything that is still to be parsed. */
    ghost function Ahead(stream: Stream): seq<byte>
      reads this, stream
    {
      buffer + stream.unread
    }

    /** One of the fill loops: read until `need` bytes are buffered. */
    method Fill(stream: Stream, need: nat) returns (r: Result<(), Error>)
      modifies this`buffer, stream`unread, stream`failures
      ensures Ahead(stream) == old(Ahead(stream))
      ensures stream.failures == old(stream.failures) + if r == Failure(IoError) then 1 else 0
      ensures |old(buffer)| >= need ==> r.Success? && stream.unread == old(stream.unread)
      ensures r.Success? ==> |buffer| >= need
      ensures r.Failure? ==> r.error == IoError || (r.error == UnexpectedEOF && |Ahead(stream)| < need)
    {
      while |buffer| < need
        invariant Ahead(stream) == old(Ahead(stream)) && stream.failures == old(stream.failures)
        invariant |old(buffer)| >= need ==> stream.unread == old(stream.unread) && buffer == old(buffer)
        decreases |stream.unread|
      {
        var chunk := stream.ReadBuf();
        if chunk.Failure? {
          return Failure(chunk.error);
        }
        if |chunk.value| == 0 {
          return Failure(UnexpectedEOF);
        }
        ghost var was := buffer;
        buffer := buffer + chunk.value;
        assert was + (chunk.value + stream.unread) == buffer + stream.unread;
      }
      r := Success(());
    }

    /**
      `parse_frame_header`: unless the transport fails, the result and what is left depend only on the bytes ahead, not
      on how the transport cuts them.
     */
    method ParseFrameHeader(stream: Stream) returns (r: Result<Frame, Error>)
      modifies this`buffer, stream`unread, stream`failures
      ensures IsSuffix(Ahead(stream), old(Ahead(stream)))
      ensures Agrees(r, Ahead(stream), Parse(old(Ahead(stream)), maxMessageSize))
      ensures stream.failures == old(stream.failures) + if r == Failure(IoError) then 1 else 0
      ensures r == Failure(IoError) ==> CutShort(old(Ahead(stream)), Ahead(stream))
    {
      var filled := Fill(stream, 2);
      if filled.Failure? {
        return Failure(filled.error);
      }
      var b0, b1 := buffer[0], buffer[1];
      var fin := HighBit(b0);
      if ReservedBits(b0) {
        return Failure(ReservedBitsNotZero);
      }
      var opcode := ToOpCode(LowNibble(b0));
      if opcode.Failure? {
        return Failure(opcode.error);
      }
      buffer := buffer[2..];
      ghost var body := Ahead(stream);
      assert body == old(Ahead(stream))[2..];
      DropIsSuffix(old(Ahead(stream)), 2);
      r := ParseBody(stream, fin, opcode.value, HighBit(b1), LowSeven(b1));
      SuffixTrans(Ahead(stream), body, old(Ahead(stream)));
    }

    /** The extended length, the masking key and the checks that need them. */
    method ParseBody(stream: Stream, fin: bool, opcode: OpCode, masked: bool, lengthCode: nat)
      returns (r: Result<Frame, Error>)
      modifies this`buffer, stream`unread, stream`failures
      ensures IsSuffix(Ahead(stream), old(Ahead(stream)))
      ensures Agrees(r, Ahead(stream), ParseLength(fin, opcode, masked, lengthCode, old(Ahead(stream)), maxMessageSize))
      ensures stream.failures == old(stream.failures) + if r == Failure(IoError) then 1 else 0
      ensures r == Failure(IoError) ==> CutBody(lengthCode, masked, old(Ahead(stream)), Ahead(stream))
    {
      hide ParsePayload, FromBigEndian, IsSuffix;
      var extra := ExtraBytes(lengthCode);
      var size := extra + MaskBytes(masked);
      var filled := Fill(stream, size);
      SelfSuffix(Ahead(stream));
      if filled.Failure? {
        return Failure(filled.error);
      }
      ghost var start := Ahead(stream);
      PrefixSlices(buffer, stream.unread, extra, size);
      var payloadLen := if extra == 0 then lengthCode else FromBigEndian(buffer[..extra]);
      var mask: Option<Key> := None;
      if masked {
        var key: Key := buffer[extra..size];
        mask := Some(key);
      }
      buffer := buffer[size..];
      ghost var body := Ahead(stream);
      assert body == start[size..];
      DropIsSuffix(start, size);
      r := ParseRest(stream, fin, opcode, mask, payloadLen);
      SuffixTrans(Ahead(stream), body, start);
    }

    /** The checks on the header, and the payload. */
    method ParseRest(stream: Stream, fin: bool, opcode: OpCode, mask: Option<Key>, payloadLen: nat)
      returns (r: Result<Frame, Error>)
      modifies this`buffer, stream`unread, stream`failures
      ensures IsSuffix(Ahead(stream), old(Ahead(stream)))
      ensures Agrees(r, Ahead(stream), ParsePayload(fin, opcode, mask, payloadLen, old(Ahead(stream)), maxMessageSize))
      ensures stream.failures == old(stream.failures) + if r == Failure(IoError) then 1 else 0
      ensures r == Failure(IoError) ==> Ahead(stream) == old(Ahead(stream))
    {
      if IsControl(opcode) && !fin {
        return Failure(ControlFrameFragmented);
      }
      if opcode == Ping && payloadLen > 125 {
        return Failure(PingFrameTooLarge);
      }
      if payloadLen >= maxMessageSize {
        return Failure(FrameTooLarge);
      }
      var filled := Fill(stream, payloadLen);
      if filled.Failure? {
        return Failure(filled.error);
      }
      ghost var start := Ahead(stream);
      var payload := buffer[..payloadLen];
      assert payload == start[..payloadLen];
      buffer := buffer[payloadLen..];
      assert Ahead(stream) == start[payloadLen..];
      DropIsSuffix(start, payloadLen);
      r := Success(Frame(fin, opcode, mask, payload));
    }

    /** `read_frame_inner` */
    method ReadFrameInner(stream: Stream) returns (r: Result<Option<Frame>, Error>, obligated: Option<Frame>)
      modifies this`buffer, stream`unread, stream`failures
      ensures IsSuffix(Ahead(stream), old(Ahead(stream)))
      ensures Config() == old(Config())
      ensures stream.failures == old(stream.failures) + if r == Failure(IoError) then 1 else 0
      ensures r == Failure(IoError) ==> obligated == None && CutShort(old(Ahead(stream)), Ahead(stream))
      ensures r != Failure(IoError) ==>
        var p := Parse(old(Ahead(stream)), maxMessageSize);
        Ahead(stream) == p.rest && Reaction(r, obligated) == ReactTo(Config(), p)
    {
      var parsed := ParseFrameHeader(stream);
      if parsed.Failure? {
        return Failure(parsed.error), None;
      }
      r, obligated := Answer(parsed.value);
    }

    /** The part of `read_frame_inner` after the parse. */
    method Answer(parsed: Frame) returns (r: Result<Option<Frame>, Error>, obligated: Option<Frame>)
      ensures Reaction(r, obligated) == React(Config(), parsed)
      ensures r != Failure(IoError)
    {
      var frame := parsed;
      if role == Server && autoApplyMask {
        frame := UnmaskFrame(frame);
      }
      if frame.opcode == Close && autoClose {
        r, obligated := CheckClose(frame);
      } else if frame.opcode == Ping && autoPong {
        r, obligated := Success(None), Some(PongFrame(frame.payload));
      } else {
        r, obligated := Success(Some(frame)), None;
      }
    }
  }

  /** The Close arm of `read_frame_inner`. */
  method CheckClose(frame: Frame) returns (r: Result<Option<Frame>, Error>, obligated: Option<Frame>)
    ensures Reaction(r, obligated) == AnswerClose(frame)
    ensures r != Failure(IoError)
  {
    var p := frame.payload;
    if |p| == 1 {
      return Failure(InvalidCloseFrame), None;
    }
    if |p| >= 2 {
      var code := CloseCodes.FromCode(FromBigEndian(p[..2]));
      CloseCodes.ClassesAreExact(FromBigEndian(p[..2]));
      Utf8.DecodeDecidesValid(p[2..]);
      if !Utf8.Decode(p[2..]).Ok? {
        return Failure(InvalidUTF8), None;
      }
      if !CloseCodes.IsAllowed(code) {
        return Failure(InvalidCloseCode), Some(CloseFrame(1002, p[2..]));
      }
    }
    return Success(Some(frame)), Some(CloseRaw(p));
  }
}
