/** Laws that tie the printer to the parser. */
module Codec {
  import opened Bytes
  import opened Errors
  import opened Frames
  import opened Masking
  import opened Parsing

  // ---------- Header pieces ----------

  lemma OpCodeRoundTrip(op: OpCode, b: byte)
    ensures ToOpCode(b) == Success(op) <==> b == OpCodeByte(op)
  {
  }

  lemma FirstByteBits(fin: bool, op: OpCode)
    ensures var b := FirstByte(fin, op);
            HighBit(b) == fin && !ReservedBits(b) && LowNibble(b) == OpCodeByte(op)
  {
  }

  lemma FirstByteUnique(b: byte, op: OpCode)
    requires !ReservedBits(b) && ToOpCode(LowNibble(b)) == Success(op)
    ensures b == FirstByte(HighBit(b), op)
  {
    OpCodeRoundTrip(op, LowNibble(b));
  }

  lemma Pow256Values()
    ensures Pow256(2) == 65536 && Pow256(8) == USIZE_LIMIT
  {
    assert Pow256(1) == 256;
    assert Pow256(3) == 0x100_0000;
    assert Pow256(4) == 0x1_0000_0000;
    assert Pow256(5) == 0x100_0000_0000;
    assert Pow256(6) == 0x1_0000_0000_0000;
    assert Pow256(7) == 0x100_0000_0000_0000;
  }

  /** The 7-bit length code in front of the extended length. */
  function LengthCode(len: nat): nat {
    if len < 126 then len else if len < 65536 then 126 else 127
  }

  /** The length field is its code with the mask bit and the extended length. */
  lemma LengthFieldParts(len: nat, masked: bool)
    requires len < USIZE_LIMIT
    ensures var field, extra := LengthField(len, masked), ExtraBytes(LengthCode(len));
            && |field| == 1 + extra
            && HighBit(field[0]) == masked && LowSeven(field[0]) == LengthCode(len)
            && (extra > 0 ==> FromBigEndian(field[1..]) == len)
  {
    Pow256Values();
    var field := LengthField(len, masked);
    if 126 <= len < 65536 {
      EncodeThenDecode(len, 2);
      assert field[1..] == ToBigEndian(len, 2);
    } else if 65536 <= len {
      EncodeThenDecode(len, 8);
      assert field[1..] == ToBigEndian(len, 8);
    }
  }

  // ---------- Printing then parsing ----------

  /** Where the fields of a printed frame are found again. */
  lemma EncodedParts(f: Frame, tail: seq<byte>)
    requires |f.payload| < USIZE_LIMIT
    ensures var input, field := Encode(f) + tail, LengthField(|f.payload|, f.mask.Some?);
            && |input| >= 2 && input[0] == FirstByte(f.fin, f.opcode) && input[1] == field[0]
            && input[2..] == field[1..] + (MaskField(f.mask) + (f.payload + tail))
  {
    var field := LengthField(|f.payload|, f.mask.Some?);
    hide LengthField;
    BehindTwo(FirstByte(f.fin, f.opcode), field[0], field[1..] + (MaskField(f.mask) + (f.payload + tail)));
    assert field == [field[0]] + field[1..];
    Regroup([FirstByte(f.fin, f.opcode)], [field[0]], field[1..], MaskField(f.mask), f.payload, tail);
    assert [FirstByte(f.fin, f.opcode)] + [field[0]] == [FirstByte(f.fin, f.opcode), field[0]];
  }

  lemma Regroup(a: seq<byte>, b: seq<byte>, c: seq<byte>, d: seq<byte>, e: seq<byte>, t: seq<byte>)
    ensures a + (b + c) + d + e + t == a + b + (c + (d + (e + t)))
  {
  }

  /** Whatever header is printed, the parser comes to its checks with the frame's own fields and payload. */
  lemma ParseEncoded(f: Frame, tail: seq<byte>, limit: usize)
    requires |f.payload| < USIZE_LIMIT
    ensures Parse(Encode(f) + tail, limit) ==
            ParsePayload(f.fin, f.opcode, f.mask, |f.payload|, f.payload + tail, limit)
  {
    var field := LengthField(|f.payload|, f.mask.Some?);
    EncodedParts(f, tail);
    FirstByteBits(f.fin, f.opcode);
    OpCodeRoundTrip(f.opcode, OpCodeByte(f.opcode));
    LengthFieldParts(|f.payload|, f.mask.Some?);
    hide ParseLength, ParsePayload, FromBigEndian, LengthField, ToOpCode, Encode;
    LengthEncoded(f, LengthCode(|f.payload|), field[1..], tail, limit);
  }

  lemma LengthEncoded(f: Frame, code: nat, extended: seq<byte>, tail: seq<byte>, limit: usize)
    requires |extended| == ExtraBytes(code)
    requires |f.payload| == if extended == [] then code else FromBigEndian(extended)
    ensures ParseLength(f.fin, f.opcode, f.mask.Some?, code, extended + (MaskField(f.mask) + (f.payload + tail)), limit)
         == ParsePayload(f.fin, f.opcode, f.mask, |f.payload|, f.payload + tail, limit)
  {
    HeaderEncoded(f, code, extended, f.payload + tail, limit);
  }

  /** The same for any bytes where the payload is expected. */
  lemma HeaderEncoded(f: Frame, code: nat, extended: seq<byte>, body: seq<byte>, limit: usize)
    requires |extended| == ExtraBytes(code)
    requires |f.payload| == if extended == [] then code else FromBigEndian(extended)
    ensures ParseLength(f.fin, f.opcode, f.mask.Some?, code, extended + (MaskField(f.mask) + body), limit) ==
            ParsePayload(f.fin, f.opcode, f.mask, |f.payload|, body, limit)
  {
    hide ParsePayload, FromBigEndian;
    TakeParts(extended, MaskField(f.mask), body);
  }

  /** The parser reads back any frame that is printed, and leaves what follows it. */
  lemma RoundTrip(f: Frame, tail: seq<byte>, limit: usize)
    requires WellFormed(f, limit)
    ensures Parse(Encode(f) + tail, limit) == Got(f, tail)
  {
    hide Parse, Encode;
    ParseEncoded(f, tail, limit);
    TakeParts([], f.payload, tail);
    assert [] + (f.payload + tail) == f.payload + tail;
  }

  /** Of the frames that can be printed, exactly the well-formed ones are accepted. */
  lemma AcceptedExactly(f: Frame, tail: seq<byte>, limit: usize)
    requires |f.payload| < USIZE_LIMIT
    ensures Parse(Encode(f) + tail, limit).Got? <==> WellFormed(f, limit)
  {
    hide Parse, Encode;
    ParseEncoded(f, tail, limit);
  }

  /** A control frame below the size limit is refused for its length only if it is a Ping. */
  lemma ControlLengths(op: OpCode, mask: Option<Key>, payload: seq<byte>, tail: seq<byte>, limit: usize)
    requires IsControl(op) && |payload| < limit
    ensures Parse(Encode(Frame(true, op, mask, payload)) + tail, limit).Got? <==> !(op.Ping? && |payload| > 125)
  {
    hide Parse, Encode;
    AcceptedExactly(Frame(true, op, mask, payload), tail, limit);
  }

  lemma TakeParts(a: seq<byte>, b: seq<byte>, c: seq<byte>)
    ensures var s := a + (b + c);
            s[..|a|] == a && s[|a|..|a| + |b|] == b && s[|a| + |b|..] == c
  {
  }

  /** What repeated calls make of a stream: its frames, and why they end. */
  datatype Transcript = Transcript(frames: seq<Frame>, end: Parsed)

  function ParseAll(input: seq<byte>, limit: usize): (t: Transcript)
    ensures t.end.Failed?
    decreases |input|
  {
    match Parse(input, limit)
    case Failed(e, rest) => Transcript([], Failed(e, rest))
    case Got(f, rest) =>
      ParseProgress(input, limit);
      var t := ParseAll(rest, limit);
      Transcript([f] + t.frames, t.end)
  }

  /** Frames written back to back come out one by one, and then whatever follows them. */
  lemma SequenceRoundTrip(fs: seq<Frame>, tail: seq<byte>, limit: usize)
    requires forall f :: f in fs ==> WellFormed(f, limit)
    ensures var t := ParseAll(tail, limit);
            ParseAll(EncodeAll(fs) + tail, limit) == Transcript(fs + t.frames, t.end)
  {
    PrependFrames(fs, tail, ParseAll(tail, limit), limit);
  }

  lemma {:induction false} PrependFrames(fs: seq<Frame>, tail: seq<byte>, t: Transcript, limit: usize)
    requires forall f :: f in fs ==> WellFormed(f, limit)
    requires ParseAll(tail, limit) == t
    ensures ParseAll(EncodeAll(fs) + tail, limit) == Transcript(fs + t.frames, t.end)
    decreases |fs|
  {
    if fs == [] {
      assert EncodeAll(fs) + tail == tail;
      assert fs + t.frames == t.frames;
    } else {
      var rest := EncodeAll(fs[1..]) + tail;
      PrependFrames(fs[1..], tail, t, limit);
      PrependFrame(fs[0], rest, Transcript(fs[1..] + t.frames, t.end), limit);
      Assoc(Encode(fs[0]), EncodeAll(fs[1..]), tail);
      Assoc([fs[0]], fs[1..], t.frames);
      assert [fs[0]] + fs[1..] == fs;
    }
  }

  lemma PrependFrame(f: Frame, rest: seq<byte>, t: Transcript, limit: usize)
    requires WellFormed(f, limit)
    requires ParseAll(rest, limit) == t
    ensures ParseAll(Encode(f) + rest, limit) == Transcript([f] + t.frames, t.end)
  {
    RoundTrip(f, rest, limit);
  }

  /** Nothing but the frames: they all come out, and the stream ends between two frames. */
  lemma WholeStreamRoundTrip(fs: seq<Frame>, limit: usize)
    requires forall f :: f in fs ==> WellFormed(f, limit)
    ensures ParseAll(EncodeAll(fs), limit) == Transcript(fs, Failed(UnexpectedEOF, []))
  {
    SequenceRoundTrip(fs, [], limit);
    assert EncodeAll(fs) + [] == EncodeAll(fs) && fs + [] == fs;
  }

  // ---------- Parsing then printing ----------

  /** The length field of `input` is no longer than it has to be. */
  predicate ShortestLength(input: seq<byte>) {
    && |input| >= 2
    && (LowSeven(input[1]) == 126 ==> |input| >= 4 && FromBigEndian(input[2..4]) >= 126)
    && (LowSeven(input[1]) == 127 ==> |input| >= 10 && FromBigEndian(input[2..10]) >= 65536)
  }

  /** A short payload behind a 16-bit length field, which is longer than it has to be, is accepted all the same. */
  lemma LongLengthIsAccepted(payload: seq<byte>, tail: seq<byte>, limit: usize)
    requires |payload| < 126 && |payload| < limit
    ensures var input := [0x82, 126] + (ToBigEndian(|payload|, 2) + (payload + tail));
            && Parse(input, limit) == Got(Frame(true, Binary, None, payload), tail)
            && !ShortestLength(input)
  {
    hide *;
    var body := ToBigEndian(|payload|, 2) + (payload + tail);
    LongLength(ToBigEndian(|payload|, 2), payload, tail, limit);
    BehindTwo(0x82, 126, body);
    BinaryHeader();
    TwoBytes(0x82, 126, Binary, body, limit);
    NotShortest([0x82, 126] + body);
  }

  lemma BinaryHeader()
    ensures !ReservedBits(0x82) && ToOpCode(LowNibble(0x82)) == Success(Binary) && HighBit(0x82)
    ensures !HighBit(126) && LowSeven(126) == 126
  {
  }

  lemma NotShortest(input: seq<byte>)
    requires |input| >= 4 && LowSeven(input[1]) == 126 && FromBigEndian(input[2..4]) < 126
    ensures !ShortestLength(input)
  {
  }

  lemma TwoBytes(b0: byte, b1: byte, op: OpCode, body: seq<byte>, limit: usize)
    requires !ReservedBits(b0) && ToOpCode(LowNibble(b0)) == Success(op)
    ensures Parse([b0, b1] + body, limit) == ParseLength(HighBit(b0), op, HighBit(b1), LowSeven(b1), body, limit)
  {
    hide ParseLength, ToOpCode, ReservedBits, LowNibble, LowSeven, HighBit;
    BehindTwo(b0, b1, body);
  }

  lemma BehindTwo(b0: byte, b1: byte, body: seq<byte>)
    ensures var input := [b0, b1] + body;
            && input[0] == b0 && input[1] == b1 && input[2..] == body
            && (|body| >= 2 ==> input[2..4] == body[..2])
  {
  }

  lemma LongLength(extended: seq<byte>, payload: seq<byte>, tail: seq<byte>, limit: usize)
    requires |payload| < 126 && |payload| < limit && extended == ToBigEndian(|payload|, 2)
    ensures var body := extended + (payload + tail);
            && ParseLength(true, Binary, false, 126, body, limit) == Got(Frame(true, Binary, None, payload), tail)
            && |body| >= 2 && FromBigEndian(body[..2]) == |payload|
  {
    Pow256Values();
    EncodeThenDecode(|payload|, 2);
    hide FromBigEndian, ToBigEndian;
    var body := extended + (payload + tail);
    assert body[..2] == extended && body[2..] == payload + tail;
    TakeParts([], payload, tail);
    assert [] + (payload + tail) == payload + tail;
  }

  /**
    A parsed frame printed again takes no more bytes than it was read from, and takes exactly the same bytes if and only
    if its length field was the shortest.
   */
  lemma CanonicalForm(input: seq<byte>, limit: usize)
    requires Parse(input, limit).Got?
    ensures var p := Parse(input, limit);
            && |Encode(p.frame)| + |p.rest| <= |input|
            && (Encode(p.frame) + p.rest == input <==> ShortestLength(input))
  {
    var op := ToOpCode(LowNibble(input[0])).value;
    var fin, masked, code := HighBit(input[0]), HighBit(input[1]), LowSeven(input[1]);
    var extended := input[2..][..ExtraBytes(code)];
    CanonicalLength(fin, op, masked, code, input[2..], limit);
    FirstByteUnique(input[0], op);
    var f, rest := Parse(input, limit).frame, Parse(input, limit).rest;
    var tail := MaskField(f.mask) + (f.payload + rest);
    SplitHeader(input, extended, tail);
    ReprintedHead(f, rest, input, extended, tail);
  }

  lemma SplitHeader(input: seq<byte>, extended: seq<byte>, tail: seq<byte>)
    requires |input| >= 2 && input[2..] == extended + tail
    ensures input == [input[0]] + ([input[1]] + extended) + tail
  {
    assert input == [input[0]] + [input[1]] + input[2..];
  }

  /** Below the first two bytes: the printed length field stands in for the one read, and all else is the same. */
  lemma CanonicalLength(fin: bool, op: OpCode, masked: bool, code: nat, input: seq<byte>, limit: usize)
    requires code < 128 && ParseLength(fin, op, masked, code, input, limit).Got?
    ensures var p := ParseLength(fin, op, masked, code, input, limit);
            var extended := input[..ExtraBytes(code)];
            && p.frame.fin == fin && p.frame.opcode == op && p.frame.mask.Some? == masked
            && input == extended + (MaskField(p.frame.mask) + (p.frame.payload + p.rest))
            && |p.frame.payload| == (if extended == [] then code else FromBigEndian(extended))
  {
    var extra, size := ExtraBytes(code), ExtraBytes(code) + MaskBytes(masked);
    Reassemble(input, extra, size, |ParseLength(fin, op, masked, code, input, limit).frame.payload|);
  }

  lemma Reassemble(s: seq<byte>, i: nat, j: nat, k: nat)
    requires i <= j && j + k <= |s|
    ensures s == s[..i] + (s[i..j] + (s[j..][..k] + s[j..][k..]))
  {
  }

  lemma ReprintedHead(f: Frame, rest: seq<byte>, input: seq<byte>, extended: seq<byte>, tail: seq<byte>)
    requires |input| >= 2
    requires |extended| == ExtraBytes(LowSeven(input[1]))
    requires |f.payload| == (if extended == [] then LowSeven(input[1]) else FromBigEndian(extended))
    requires input[0] == FirstByte(f.fin, f.opcode) && HighBit(input[1]) == f.mask.Some?
    requires input == [input[0]] + ([input[1]] + extended) + tail
    requires tail == MaskField(f.mask) + (f.payload + rest)
    ensures |Encode(f)| + |rest| <= |input|
    ensures Encode(f) + rest == input <==> ShortestLength(input)
  {
    var printed, read := LengthField(|f.payload|, f.mask.Some?), [input[1]] + extended;
    ShortestField(LowSeven(input[1]), f.mask.Some?, extended, |f.payload|);
    assert input[1] == (if f.mask.Some? then 0x80 else 0) + LowSeven(input[1]) as byte;
    RegroupEncoding([input[0]] + printed, MaskField(f.mask), f.payload, rest);
    Cancel([input[0]], printed, read, tail);
    assert ShortestLength(input) <==> |printed| == |read| by {
      assert input[2..2 + |extended|] == extended;
    }
  }

  lemma RegroupEncoding(a: seq<byte>, b: seq<byte>, c: seq<byte>, d: seq<byte>)
    ensures a + b + c + d == a + (b + (c + d))
  {
    Assoc(a + b, c, d);
    Assoc(a, b, c + d);
  }

  lemma Cancel(a: seq<byte>, x: seq<byte>, y: seq<byte>, b: seq<byte>)
    ensures a + x + b == a + y + b <==> x == y
  {
    var s, t := a + x + b, a + y + b;
    if s == t {
      assert |x| == |y|;
      assert s[|a|..|a| + |x|] == x && t[|a|..|a| + |y|] == y;
    }
  }

  /** The printed length field is never longer than the one read, and equals it exactly when that was the shortest. */
  lemma ShortestField(code: nat, masked: bool, extended: seq<byte>, len: nat)
    requires code < 128 && |extended| == ExtraBytes(code)
    requires len == if extended == [] then code else FromBigEndian(extended)
    ensures var maskBit: byte := if masked then 0x80 else 0;
            var field := LengthField(len, masked);
            && |field| <= 1 + |extended|
            && (field == [maskBit + code as byte] + extended <==> |field| == 1 + |extended|)
            && (|field| == 1 + |extended| <==> (code == 126 ==> len >= 126) && (code == 127 ==> len >= 65536))
  {
    Pow256Values();
    DecodeThenEncode(extended);
  }
}
