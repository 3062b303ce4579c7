/** Frames and their wire form (`src/frame.rs`; RFC 6455, section 5.2). */
module Frames {
  import opened Bytes
  import opened Errors
  import opened Streams
  import opened Masking

  // ---------- Opcodes ----------

  datatype OpCode = Continuation | Text | Binary | Close | Ping | Pong

  function OpCodeByte(op: OpCode): byte {
    match op
    case Continuation => 0x0
    case Text => 0x1
    case Binary => 0x2
    case Close => 0x8
    case Ping => 0x9
    case Pong => 0xA
  }

  /** `OpCode::try_from` */
  function ToOpCode(b: byte): Result<OpCode, Error> {
    if b == 0x0 then Success(Continuation)
    else if b == 0x1 then Success(Text)
    else if b == 0x2 then Success(Binary)
    else if b == 0x8 then Success(Close)
    else if b == 0x9 then Success(Ping)
    else if b == 0xA then Success(Pong)
    else Failure(InvalidValue)
  }

  predicate IsControl(op: OpCode) {
    op.Close? || op.Ping? || op.Pong?
  }

  // ---------- Frames ----------

  datatype Frame = Frame(fin: bool, opcode: OpCode, mask: Option<Key>, payload: seq<byte>)

  /** `Frame::close` */
  function CloseFrame(code: nat, reason: seq<byte>): Frame {
    Frame(true, Close, None, ToBigEndian(code, 2) + reason)
  }

  /** `Frame::close_raw` */
  function CloseRaw(payload: seq<byte>): Frame {
    Frame(true, Close, None, payload)
  }

  /** `Frame::pong` */
  function PongFrame(payload: seq<byte>): Frame {
    Frame(true, Pong, None, payload)
  }

  /** The frame after `Frame::mask`, `key` being the random key drawn for a frame that has none. */
  function Masked(f: Frame, key: Key): Frame {
    match f.mask
    case Some(k) => f.(payload := Xored(f.payload, k))
    case None => f.(payload := Xored(f.payload, key), mask := Some(key))
  }

  /** The frame after `Frame::unmask`, which keeps the key. */
  function Unmasked(f: Frame): Frame {
    match f.mask
    case Some(k) => f.(payload := Xored(f.payload, k))
    case None => f
  }

  /** What one side masks the other unmasks. */
  lemma UnmaskUndoesMask(f: Frame, key: Key)
    ensures Unmasked(Masked(f, key)).payload == f.payload
  {
    XoredTwice(f.payload, if f.mask.Some? then f.mask.value else key);
  }

  /** The payload bytes of `Frame::mask` and `Frame::unmask`, changed in place. */
  method XorPayload(payload: seq<byte>, key: Key) returns (r: seq<byte>)
    ensures r == Xored(payload, key)
  {
    var buf := new byte[|payload|](i requires 0 <= i < |payload| => payload[i]);
    assert buf[..] == payload;
    Unmask(buf, key);
    r := buf[..];
  }

  method MaskFrame(f: Frame, random: Key) returns (r: Frame)
    ensures r == Masked(f, random)
  {
    if f.mask.Some? {
      var p := XorPayload(f.payload, f.mask.value);
      r := f.(payload := p);
    } else {
      var p := XorPayload(f.payload, random);
      r := f.(payload := p, mask := Some(random));
    }
  }

  method UnmaskFrame(f: Frame) returns (r: Frame)
    ensures r == Unmasked(f)
  {
    r := f;
    if f.mask.Some? {
      var p := XorPayload(f.payload, f.mask.value);
      r := f.(payload := p);
    }
  }

  // ---------- The wire form ----------

  function FirstByte(fin: bool, op: OpCode): byte {
    (if fin then 0x80 else 0) + OpCodeByte(op)
  }

  /** The sum above is the shift and the bitwise or of the source, for every opcode byte. */
  lemma FirstByteIsShifted(fin: bool, op: OpCode)
    ensures var bit: bv8 := if fin then 1 else 0;
            FirstByte(fin, op) as nat == ((bit << 7) | (OpCodeByte(op) as bv8)) as nat
  {
    match op
    case Continuation =>
    case Text =>
    case Binary =>
    case Close =>
    case Ping =>
    case Pong =>
  }

  /** So is adding the mask bit to a length byte. */
  lemma MaskBitIsSet(b: bv8)
    requires b < 0x80
    ensures b as nat + 0x80 == (b | 0x80) as nat
  {
  }

  /** The payload length in the shortest of its three forms, with the mask bit. */
  function LengthField(len: nat, masked: bool): (r: seq<byte>)
    ensures |r| == if len < 126 then 1 else if len < 65536 then 3 else 9
  {
    var maskBit: byte := if masked then 0x80 else 0;
    if len < 126 then [maskBit + len as byte]
    else if len < 65536 then [maskBit + 126] + ToBigEndian(len, 2)
    else [maskBit + 127] + ToBigEndian(len, 8)
  }

  function MaskField(mask: Option<Key>): seq<byte> {
    if mask.Some? then mask.value else []
  }

  function Head(f: Frame): (h: seq<byte>)
    ensures 2 <= |h| <= 14
  {
    [FirstByte(f.fin, f.opcode)] + LengthField(|f.payload|, f.mask.Some?) + MaskField(f.mask)
  }

  function Encode(f: Frame): seq<byte> {
    Head(f) + f.payload
  }

  function EncodeAll(fs: seq<Frame>): seq<byte> {
    if fs == [] then [] else Encode(fs[0]) + EncodeAll(fs[1..])
  }

  const MAX_HEAD_SIZE: nat := 16

  /** `copy_from_slice` on `dst[at..at + |src|]`. */
  method CopyFromSlice(dst: array<byte>, at: nat, src: seq<byte>)
    requires at + |src| <= dst.Length
    modifies dst
    ensures dst[..] == old(dst[..at]) + src + old(dst[at + |src|..])
  {
    forall i | 0 <= i < |src| {
      dst[at + i] := src[i];
    }
  }

  /** `fmt_head`: the header replaces the first bytes of `head` and leaves the rest. */
  method FmtHead(f: Frame, head: array<byte>) returns (size: nat)
    requires |Head(f)| <= head.Length
    modifies head
    ensures size == |Head(f)|
    ensures head[..] == Head(f) + old(head[size..])
  {
    ghost var before := head[..];
    HeadParts(f);
    hide Head, LengthField, FirstByte;
    size := FmtLength(f, head);
    if f.mask.Some? {
      FmtMask(head, size, f.mask.value);
      size := size + 4;
    }
    assert head[size..] == before[size..];
    assert head[..] == head[..size] + head[size..];
  }

  /** The header is its first byte and the unmasked length, and for a masked frame the mask bit and the key. */
  lemma HeadParts(f: Frame)
    ensures var start := [FirstByte(f.fin, f.opcode)] + LengthField(|f.payload|, false);
            && |start| >= 2 && start[1] < 0x80
            && Head(f) == if f.mask.Some? then start[1 := start[1] + 0x80] + f.mask.value else start
  {
    var start := [FirstByte(f.fin, f.opcode)] + LengthField(|f.payload|, false);
    if f.mask.Some? {
      assert start[1 := start[1] + 0x80] == [FirstByte(f.fin, f.opcode)] + LengthField(|f.payload|, true);
    } else {
      assert start + [] == start;
    }
  }

  /** The part of `fmt_head` for a masked frame. */
  method FmtMask(head: array<byte>, size: nat, key: Key)
    requires 2 <= size && size + 4 <= head.Length && head[1] < 0x80
    modifies head
    ensures head[..size + 4] == old(head[..size])[1 := old(head[1]) + 0x80] + key
    ensures head[size + 4..] == old(head[size + 4..])
  {
    ghost var before := head[..];
    head[1] := head[1] + 0x80;
    assert head[..size] == before[..size][1 := before[1] + 0x80];
    CopyFromSlice(head, size, key);
  }

  /** The part of `fmt_head` before the mask. */
  method FmtLength(f: Frame, head: array<byte>) returns (size: nat)
    requires |Head(f)| <= head.Length
    modifies head
    ensures size <= head.Length && head[size..] == old(head[size..])
    ensures head[..size] == [FirstByte(f.fin, f.opcode)] + LengthField(|f.payload|, false)
  {
    ghost var before := head[..];
    var len := |f.payload|;
    head[0] := FirstByte(f.fin, f.opcode);
    if len < 126 {
      head[1] := len as byte;
      size := 2;
    } else if len < 65536 {
      head[1] := 126;
      CopyFromSlice(head, 2, ToBigEndian(len, 2));
      size := 4;
    } else {
      head[1] := 127;
      CopyFromSlice(head, 2, ToBigEndian(len, 8));
      size := 10;
    }
    assert head[size..] == before[size..];
  }

  /** `Frame::write`: the frame is the first `n` bytes of the scratch buffer, whatever that held before. */
  method Write(f: Frame, scratch: seq<byte>) returns (buf: seq<byte>, n: nat)
    ensures n <= |buf| && buf[..n] == Encode(f)
  {
    var len := |f.payload|;
    var size := if |scratch| < len + MAX_HEAD_SIZE then len + MAX_HEAD_SIZE else |scratch|;
    var bytes := new byte[size](i requires 0 <= i => if i < |scratch| then scratch[i] else 0);
    var head := FmtHead(f, bytes);
    assert bytes[..head] == Head(f);
    CopyFromSlice(bytes, head, f.payload);
    n := head + len;
    assert bytes[..n] == Encode(f);
    buf := bytes[..];
    assert buf[..n] == bytes[..n];
  }

  /** What a vectored write takes after `done` bytes of the header. */
  lemma ResumeWithin(head: seq<byte>, payload: seq<byte>, done: nat, n: nat)
    requires done <= |head| && n <= |head| - done + |payload|
    ensures (head + payload)[..done] + (head[done..] + payload)[..n] == (head + payload)[..done + n]
  {
  }

  /** What a plain write takes after `done` bytes, the header included. */
  lemma ResumeAfter(head: seq<byte>, payload: seq<byte>, done: nat, n: nat)
    requires |head| <= done && done - |head| + n <= |payload|
    ensures (head + payload)[..done] + payload[done - |head|..][..n] == (head + payload)[..done + n]
  {
  }

  /**
    `Frame::writev`: for every sequence of short writes the bytes on the wire are the encoding of the frame, without gap
    or repetition; if the transport fails they are a beginning of it.
   */
  method Writev(f: Frame, stream: Stream) returns (r: Result<(), Error>, ghost sent: nat)
    requires f.payload != []
    modifies stream`wire, stream`failures
    ensures sent <= |Encode(f)| && stream.wire == old(stream.wire) + Encode(f)[..sent]
    ensures r == if sent == |Encode(f)| then Success(()) else Failure(IoError)
    ensures stream.failures == old(stream.failures) + if r.Failure? then 1 else 0
  {
    var buf := new byte[MAX_HEAD_SIZE](_ => 0);
    var size := FmtHead(f, buf);
    assert buf[..size] == Head(f);
    r, sent := WritevParts(buf[..size], f.payload, stream);
  }

  /** The part of `writev` after the header is formatted. */
  method WritevParts(head: seq<byte>, payload: seq<byte>, stream: Stream)
    returns (r: Result<(), Error>, ghost sent: nat)
    requires payload != []
    modifies stream`wire, stream`failures
    ensures sent <= |head + payload| && stream.wire == old(stream.wire) + (head + payload)[..sent]
    ensures r == if sent == |head + payload| then Success(()) else Failure(IoError)
    ensures stream.failures == old(stream.failures) + if r.Failure? then 1 else 0
  {
    var size, total := |head|, |head| + |payload|;
    sent := 0;
    var n := stream.WriteVectored(head, payload);
    if n.Failure? {
      assert (head + payload)[..0] == [];
      return Failure(IoError), sent;
    }
    var done := n.value;
    sent := done;
    if done == total {
      return Success(()), sent;
    }
    while done <= size
      invariant sent == done <= total
      invariant done < total || done > size
      invariant stream.wire == old(stream.wire) + (head + payload)[..done] && stream.failures == old(stream.failures)
    {
      n := stream.WriteVectored(head[done..], payload);
      if n.Failure? {
        return Failure(IoError), sent;
      }
      ResumeWithin(head, payload, done, n.value);
      Assoc(old(stream.wire), (head + payload)[..done], (head[done..] + payload)[..n.value]);
      done := done + n.value;
      sent := done;
    }
    if size < done < total {
      ghost var more;
      r, more := stream.WriteAll(payload[done - size..]);
      ResumeAfter(head, payload, done, more);
      Assoc(old(stream.wire), (head + payload)[..done], payload[done - size..][..more]);
      sent := done + more;
      return;
    }
    r := Success(());
  }
}
