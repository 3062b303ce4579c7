/** `WriteHalf` (`src/lib.rs`). */
module Writing {
  import opened Bytes
  import opened Errors
  import opened Frames
  import opened Masking
  import opened Parsing
  import opened Streams
  import opened Endpoints

  /** `rand::random()` */
  method RandomKey() returns (k: Key)
  {
    var zeros: seq<byte> := [0, 0, 0, 0];
    assert |zeros| == 4;
    k :| |k| == 4;
  }

  class WriteHalf {
    var role: Role
    var closed: bool
    var vectored: bool
    var autoApplyMask: bool
    var writevThreshold: nat
    /** Scratch space; what earlier frames left in it is still there. */
    var writeBuffer: seq<byte>

    constructor (role: Role)
      ensures !closed && Config() == WriteConfig(role, true)
    {
      this.role := role;
      closed, vectored, autoApplyMask, writevThreshold := false, true, true, 1024;
      writeBuffer := [];
    }

    ghost function Config(): WriteConfig
      reads this
    {
      WriteConfig(role, autoApplyMask)
    }

    /**
      `write_frame`: whichever way the bytes go out, and whatever the scratch space held, the wire grows by the encoding
      of the dressed frame, or by the beginning of it that the transport took before it failed.
     */
    method WriteFrame(stream: Stream, frame: Frame, ghost auto: bool)
      returns (r: Result<(), Error>, ghost key: Key, ghost room: nat)
      modifies this`closed, this`writeBuffer, stream`wire, stream`failures
      ensures var w := Put(Endpoint(old(closed), []), Dressed(Config(), frame, key), room, auto);
              && r == w.result && closed == w.endpoint.closed
              && stream.wire == old(stream.wire) + WireOf(w.endpoint.log)
      ensures stream.failures == old(stream.failures) + if r == Failure(IoError) then 1 else 0
    {
      var f, k := Dress(frame);
      key := k;
      r, room := WriteDressed(stream, f, auto);
    }

    /** A client masks what it writes. */
    method Dress(frame: Frame) returns (f: Frame, key: Key)
      ensures f == Dressed(Config(), frame, key)
    {
      key := RandomKey();
      f := frame;
      if role == Client && autoApplyMask {
        f := MaskFrame(frame, key);
      }
    }

    /** The part of `write_frame` after masking. */
    method WriteDressed(stream: Stream, f: Frame, ghost auto: bool) returns (r: Result<(), Error>, ghost room: nat)
      modifies this`closed, this`writeBuffer, stream`wire, stream`failures
      ensures var w := Put(Endpoint(old(closed), []), f, room, auto);
              && r == w.result && closed == w.endpoint.closed
              && stream.wire == old(stream.wire) + WireOf(w.endpoint.log)
      ensures stream.failures == old(stream.failures) + if r == Failure(IoError) then 1 else 0
    {
      room := 0;
      if closed {
        assert stream.wire == stream.wire + WireOf([]);
        if f.opcode == Close {
          return Success(()), room;
        }
        return Failure(ConnectionClosed), room;
      }
      if f.opcode == Close {
        closed := true;
      }
      r, room := Transmit(stream, f);
      PutOne(f, room, auto);
    }

    /** Vectored for a large payload, through the scratch buffer otherwise. */
    method Transmit(stream: Stream, f: Frame) returns (r: Result<(), Error>, ghost room: nat)
      modifies this`writeBuffer, stream`wire, stream`failures
      ensures room <= |Encode(f)| && stream.wire == old(stream.wire) + Encode(f)[..room]
      ensures r == if room == |Encode(f)| then Success(()) else Failure(IoError)
      ensures stream.failures == old(stream.failures) + if r.Failure? then 1 else 0
    {
      if vectored && |f.payload| > writevThreshold {
        r, room := Writev(f, stream);
      } else {
        var buf, n := Write(f, writeBuffer);
        writeBuffer := buf;
        r, room := stream.WriteAll(buf[..n]);
      }
    }
  }

  lemma PutOne(f: Frame, room: nat, auto: bool)
    requires room <= |Encode(f)|
    ensures var w := Put(Endpoint(false, []), f, room, auto);
            && WireOf(w.endpoint.log) == Encode(f)[..room] && w.endpoint.closed == f.opcode.Close?
            && w.result == if room == |Encode(f)| then Success(()) else Failure(IoError)
  {
    var log := Put(Endpoint(false, []), f, room, auto).endpoint.log;
    assert log == [log[0]];
    WireOfOne(log[0]);
    if room == |Encode(f)| {
      assert Encode(f)[..room] == Encode(f);
    }
  }

  lemma WireOfOne(s: Sent)
    ensures WireOf([s]) == s.bytes
  {
    assert [s][..0] == [];
  }

  /** The wire grows with the log. */
  lemma WireOfPut(e: Endpoint, f: Frame, room: nat, auto: bool)
    ensures WireOf(Put(e, f, room, auto).endpoint.log)
         == WireOf(e.log) + WireOf(Put(Endpoint(e.closed, []), f, room, auto).endpoint.log)
    ensures Put(e, f, room, auto).endpoint.closed
         == Put(Endpoint(e.closed, []), f, room, auto).endpoint.closed
    ensures Put(e, f, room, auto).result
         == Put(Endpoint(e.closed, []), f, room, auto).result
  {
    if !e.closed {
      var after := Put(e, f, room, auto).endpoint.log;
      var s := after[|e.log|];
      assert after[..|after| - 1] == e.log;
      assert [] + [s] == [s];
      WireOfOne(s);
    } else {
      assert WireOf(e.log) + [] == WireOf(e.log);
    }
  }
}
