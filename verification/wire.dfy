/** The wire format in plain numbers (RFC 6455, section 5.2), for all three forms of the length. */
module WireFormat {
  import opened Bytes
  import opened Errors
  import opened Frames
  import opened Masking
  import opened Parsing
  import opened Codec

  // ---------- Numbers ----------

  /** Two or eight bytes, most significant first. */
  lemma BigEndianDigits(b: seq<byte>)
    ensures |b| == 2 ==> FromBigEndian(b) == 0x100 * b[0] as nat + b[1] as nat
    ensures |b| == 8 ==>
      FromBigEndian(b) ==
      0x100_0000_0000_0000 * b[0] as nat + 0x1_0000_0000_0000 * b[1] as nat + 0x100_0000_0000 * b[2] as nat +
      0x1_0000_0000 * b[3] as nat + 0x100_0000 * b[4] as nat + 0x1_0000 * b[5] as nat + 0x100 * b[6] as nat +
      b[7] as nat
  {
    hide *;
    assert b == b[..|b|];
    if |b| == 2 {
      NoDigits(b);
      NextDigit(b, 1);
      NextDigit(b, 2);
    } else if |b| == 8 {
      FourDigits(b);
      NextDigit(b, 5);
      NextDigit(b, 6);
      NextDigit(b, 7);
      NextDigit(b, 8);
    }
  }

  lemma NoDigits(b: seq<byte>)
    ensures FromBigEndian(b[..0]) == 0
  {
  }

  lemma FourDigits(b: seq<byte>)
    requires |b| >= 4
    ensures FromBigEndian(b[..4]) ==
            0x100_0000 * b[0] as nat + 0x1_0000 * b[1] as nat + 0x100 * b[2] as nat + b[3] as nat
  {
    hide *;
    NoDigits(b);
    NextDigit(b, 1);
    NextDigit(b, 2);
    NextDigit(b, 3);
    NextDigit(b, 4);
  }

  lemma NextDigit(b: seq<byte>, k: nat)
    requires 0 < k <= |b|
    ensures FromBigEndian(b[..k]) == 0x100 * FromBigEndian(b[..k - 1]) + b[k - 1] as nat
  {
    SplitLast(b[..k - 1], b[k - 1]);
    assert b[..k] == b[..k - 1] + [b[k - 1]];
  }

  /** The first byte of a printed frame. */
  lemma OpcodeOnTheWire(f: Frame)
    ensures Encode(f)[0] as nat ==
            (if f.fin then 128 else 0) +
            (if f.opcode.Continuation? then 0 else if f.opcode.Text? then 1 else if f.opcode.Binary? then 2
             else if f.opcode.Close? then 8 else if f.opcode.Ping? then 9 else 10)
  {
  }

  /** Why bytes are no frame before their length is looked at. */
  lemma NoFrame(input: seq<byte>, limit: usize)
    ensures var p := Parse(input, limit);
            && (|input| < 2 ==> p == Failed(UnexpectedEOF, input))
            && (|input| >= 2 && input[0] as nat / 16 % 8 != 0 ==> p == Failed(ReservedBitsNotZero, input))
            && (|input| >= 2 && input[0] as nat / 16 % 8 == 0 && input[0] as nat % 16 !in {0, 1, 2, 8, 9, 10} ==>
                  p == Failed(InvalidValue, input))
            && (p.Failed? && p.error == ReservedBitsNotZero ==> |input| >= 2 && input[0] as nat / 16 % 8 != 0)
            && (p.Failed? && p.error == InvalidValue ==> |input| >= 2 && input[0] as nat % 16 !in {0, 1, 2, 8, 9, 10})
  {
  }

  // ---------- A parsed frame, field by field ----------

  /** Where the payload starts. */
  function PayloadStart(b1: nat): nat {
    2 + (if b1 % 128 == 126 then 2 else if b1 % 128 == 127 then 8 else 0) + if b1 >= 128 then 4 else 0
  }

  /** Every field of a frame that is accepted, from the bytes it was read from. */
  lemma ParsedFields(input: seq<byte>, limit: usize)
    requires Parse(input, limit).Got?
    ensures |input| >= 2
    ensures var f, n := Parse(input, limit).frame, input[0] as nat % 16;
            && (f.fin <==> input[0] as nat >= 128) && input[0] as nat / 16 % 8 == 0
            && (f.opcode.Continuation? <==> n == 0) && (f.opcode.Text? <==> n == 1) && (f.opcode.Binary? <==> n == 2)
            && (f.opcode.Close? <==> n == 8) && (f.opcode.Ping? <==> n == 9) && (f.opcode.Pong? <==> n == 10)
    ensures var f, rest, b1 := Parse(input, limit).frame, Parse(input, limit).rest, input[1] as nat;
            var start, len := PayloadStart(b1), |f.payload|;
            && |input| >= start + len && f.payload == input[start..start + len] && rest == input[start + len..]
            && f.mask == (if b1 >= 128 then Some(input[start - 4..start]) else None)
            && (b1 % 128 < 126 ==> len == b1 % 128)
            && (b1 % 128 == 126 ==> len == 0x100 * input[2] as nat + input[3] as nat)
            && (b1 % 128 == 127 ==> len == FromBigEndian(input[2..10]))
  {
    var f, code, masked := Parse(input, limit).frame, LowSeven(input[1]), HighBit(input[1]);
    var op := ToOpCode(LowNibble(input[0])).value;
    var extra, body := ExtraBytes(code), input[2..];
    BodyFields(HighBit(input[0]), op, masked, code, body, limit);
    BodyIndices(input, extra, extra + MaskBytes(masked), |f.payload|);
    if extra == 2 {
      BigEndianDigits(input[2..4]);
    }
  }

  lemma BodyFields(fin: bool, op: OpCode, masked: bool, code: nat, body: seq<byte>, limit: usize)
    requires code < 128 && ParseLength(fin, op, masked, code, body, limit).Got?
    ensures var p, extra := ParseLength(fin, op, masked, code, body, limit), ExtraBytes(code);
            var size, len := extra + MaskBytes(masked), |p.frame.payload|;
            && p.frame.fin == fin && p.frame.opcode == op && |body| >= size && |body[size..]| >= len
            && p.frame.payload == body[size..][..len] && p.rest == body[size..][len..]
            && p.frame.mask == (if masked then Some(body[extra..size]) else None)
            && len == (if extra == 0 then code else FromBigEndian(body[..extra]))
  {
  }

  lemma BodyIndices(input: seq<byte>, extra: nat, size: nat, len: nat)
    requires extra <= size && |input| >= 2 + size + len
    ensures var body := input[2..];
            && body[size..][..len] == input[2 + size..2 + size + len] && body[size..][len..] == input[2 + size + len..]
            && body[extra..size] == input[2 + extra..2 + size] && body[..extra] == input[2..2 + extra]
  {
  }

  // ---------- All forms of the length ----------

  /** The length fits a field of the 7 bits alone, or of 2 or 8 bytes. */
  predicate FormFits(len: nat, extra: nat) {
    if extra == 0 then len < 126 else if extra == 2 then len < 65536 else extra == 8 && len < USIZE_LIMIT
  }

  /** Header and payload with `extra` bytes for the length, be that the shortest form or not. */
  function WireForm(f: Frame, extra: nat): seq<byte>
    requires FormFits(|f.payload|, extra)
  {
    FormHead(f, extra) + f.payload
  }

  function FormHead(f: Frame, extra: nat): seq<byte>
    requires FormFits(|f.payload|, extra)
  {
    var code: byte := if extra == 0 then |f.payload| as byte else if extra == 2 then 126 else 127;
    [FirstByte(f.fin, f.opcode), (if f.mask.Some? then 0x80 else 0) + code] +
    (ToBigEndian(|f.payload|, extra) + MaskField(f.mask))
  }

  function ShortestForm(len: nat): nat {
    if len < 126 then 0 else if len < 65536 then 2 else 8
  }

  /** The printer uses the shortest one. */
  lemma PrinterIsShortest(f: Frame)
    requires |f.payload| < USIZE_LIMIT
    ensures FormFits(|f.payload|, ShortestForm(|f.payload|))
    ensures Encode(f) == WireForm(f, ShortestForm(|f.payload|))
  {
    var extra := ShortestForm(|f.payload|);
    assert ToBigEndian(|f.payload|, 0) == [];
    assert FormHead(f, extra) == Head(f);
  }

  /** The checks on a frame whose header was read, with their errors, in the order of the source. */
  function Checked(f: Frame, tail: seq<byte>, limit: nat): Parsed {
    var control := f.opcode.Close? || f.opcode.Ping? || f.opcode.Pong?;
    if control && !f.fin then Failed(ControlFrameFragmented, f.payload + tail)
    else if f.opcode.Ping? && |f.payload| > 125 then Failed(PingFrameTooLarge, f.payload + tail)
    else if |f.payload| >= limit then Failed(FrameTooLarge, f.payload + tail)
    else Got(f, tail)
  }

  /**
    Every frame, in every form of its length, is either accepted as it is or refused with the error of the first check
    it fails, its payload left unread.
   */
  lemma EveryForm(f: Frame, extra: nat, tail: seq<byte>, limit: usize)
    requires FormFits(|f.payload|, extra)
    ensures Parse(WireForm(f, extra) + tail, limit) == Checked(f, tail, limit)
  {
    var body := f.payload + tail;
    hide Parse, FormHead;
    HeadThenBody(f, extra, body, limit);
    Assoc(FormHead(f, extra), f.payload, tail);
    TakeParts([], f.payload, tail);
    assert [] + body == body;
  }

  /** So is what the printer makes of it, and a longer form of the length makes no difference. */
  lemma RefusedWith(f: Frame, extra: nat, tail: seq<byte>, limit: usize)
    requires |f.payload| < USIZE_LIMIT
    ensures Parse(Encode(f) + tail, limit) == Checked(f, tail, limit)
    ensures FormFits(|f.payload|, extra) ==> Parse(WireForm(f, extra) + tail, limit) == Parse(Encode(f) + tail, limit)
  {
    PrinterIsShortest(f);
    hide *;
    EveryForm(f, ShortestForm(|f.payload|), tail, limit);
    if FormFits(|f.payload|, extra) {
      EveryForm(f, extra, tail, limit);
    }
  }

  /** The header is taken off, and its fields reach the checks, whatever comes where the payload should be. */
  lemma HeadThenBody(f: Frame, extra: nat, body: seq<byte>, limit: usize)
    requires FormFits(|f.payload|, extra)
    ensures Parse(FormHead(f, extra) + body, limit) ==
            ParsePayload(f.fin, f.opcode, f.mask, |f.payload|, body, limit)
  {
    var code := if extra == 0 then |f.payload| else if extra == 2 then 126 else 127;
    var b0, b1: byte := FirstByte(f.fin, f.opcode), (if f.mask.Some? then 0x80 else 0) + code as byte;
    var field, mask := ToBigEndian(|f.payload|, extra), MaskField(f.mask);
    FirstByteBits(f.fin, f.opcode);
    OpCodeRoundTrip(f.opcode, OpCodeByte(f.opcode));
    SecondByte(f.mask.Some?, code);
    FormLength(|f.payload|, extra);
    assert FormHead(f, extra) == [b0, b1] + (field + mask);
    assert |field| == ExtraBytes(code) && |f.payload| == if field == [] then code else FromBigEndian(field);
    hide *;
    FormBytes(b0, b1, field, mask, body);
    TwoBytes(b0, b1, f.opcode, field + (mask + body), limit);
    HeaderEncoded(f, code, field, body, limit);
  }

  lemma SecondByte(masked: bool, code: nat)
    requires code < 128
    ensures var b1: byte := (if masked then 0x80 else 0) + code as byte;
            HighBit(b1) == masked && LowSeven(b1) == code
  {
  }

  lemma FormBytes(b0: byte, b1: byte, field: seq<byte>, mask: seq<byte>, body: seq<byte>)
    ensures [b0, b1] + (field + mask) + body == [b0, b1] + (field + (mask + body))
  {
  }

  lemma FormLength(len: nat, extra: nat)
    requires FormFits(len, extra)
    ensures extra > 0 ==> FromBigEndian(ToBigEndian(len, extra)) == len
  {
    Pow256Values();
    if extra > 0 {
      EncodeThenDecode(len, extra);
    }
  }

  // ---------- Bytes that end too early ----------

  /** A stream that ends inside a frame, in any form: what was not needed is left, and the error says so. */
  lemma Truncated(f: Frame, extra: nat, n: nat, limit: usize)
    requires FormFits(|f.payload|, extra) && WellFormed(f, limit) && n < |WireForm(f, extra)|
    ensures var cut, head := WireForm(f, extra)[..n], |FormHead(f, extra)|;
            Parse(cut, limit) ==
            Failed(UnexpectedEOF, if n < 2 then cut else if n < head then cut[2..] else cut[head..])
  {
    var cut := WireForm(f, extra)[..n];
    if 2 <= n {
      if n < |FormHead(f, extra)| {
        CutHead(f, extra, cut, limit);
      } else {
        CutPayload(f, extra, cut, limit);
      }
    }
  }

  lemma CutHead(f: Frame, extra: nat, cut: seq<byte>, limit: usize)
    requires FormFits(|f.payload|, extra) && cut <= WireForm(f, extra) && 2 <= |cut| < |FormHead(f, extra)|
    ensures Parse(cut, limit) == Failed(UnexpectedEOF, cut[2..])
  {
    FirstByteBits(f.fin, f.opcode);
    OpCodeRoundTrip(f.opcode, OpCodeByte(f.opcode));
    hide ParsePayload, FromBigEndian, ToBigEndian, ToOpCode, FirstByte;
    assert cut[0] == WireForm(f, extra)[0] && cut[1] == WireForm(f, extra)[1];
  }

  /** Only the payload is cut: the frame parses like one whose payload has not arrived. */
  lemma CutPayload(f: Frame, extra: nat, cut: seq<byte>, limit: usize)
    requires FormFits(|f.payload|, extra) && WellFormed(f, limit)
    requires |FormHead(f, extra)| <= |cut| < |WireForm(f, extra)| && cut <= WireForm(f, extra)
    ensures Parse(cut, limit) == Failed(UnexpectedEOF, cut[|FormHead(f, extra)|..])
  {
    var head := FormHead(f, extra);
    CutAfter(head, f.payload, cut);
    hide *;
    HeadThenBody(f, extra, cut[|head|..], limit);
    TooShort(f, cut[|head|..], limit);
  }

  lemma CutAfter(head: seq<byte>, payload: seq<byte>, cut: seq<byte>)
    requires cut <= head + payload && |head| <= |cut| < |head + payload|
    ensures cut == head + cut[|head|..] && |cut[|head|..]| < |payload|
  {
    assert cut[..|head|] == head;
  }

  lemma TooShort(f: Frame, arrived: seq<byte>, limit: usize)
    requires WellFormed(f, limit) && |arrived| < |f.payload|
    ensures ParsePayload(f.fin, f.opcode, f.mask, |f.payload|, arrived, limit) == Failed(UnexpectedEOF, arrived)
  {
  }
}
