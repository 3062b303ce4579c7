/** What callers of the read methods may rely on, and what they may not. */
module ReadLaws {
  import opened Bytes
  import opened Errors
  import opened Frames
  import opened Masking
  import opened Parsing
  import opened Codec
  import opened Endpoints
  import opened Fragmentation
  import opened Reassembly
  import opened WebSockets
  import opened Collectors
  import CloseCodes
  import WireFormat
  import Utf8

  // ---------- The close handshake ----------

  /** The body is a single byte, or its reason is no text. */
  ghost predicate Malformed(p: seq<byte>) {
    |p| == 1 || (|p| >= 2 && !Utf8.Valid(p[2..]))
  }

  /** The answer to a Close, for every payload as it is seen, when the connection closes automatically. */
  lemma CloseHandshake(cfg: ReadConfig, f: Frame, g: Frame)
    requires f.opcode.Close? && cfg.autoClose && SeenAs(cfg, f, g)
    ensures var a, p := React(cfg, f), g.payload;
            && (a.reply == Some(Frame(true, Close, None, p)) <==> ProperCloseBody(p))
            && (a.result == Success(Some(g)) <==> ProperCloseBody(p))
            && (a.reply == None <==> Malformed(p))
            && (|p| == 1 ==> a.result == Failure(InvalidCloseFrame))
            && (|p| >= 2 && !Utf8.Valid(p[2..]) ==> a.result == Failure(InvalidUTF8))
            && (|p| >= 2 && Utf8.Valid(p[2..]) && !CloseCodes.MaySend(0x100 * p[0] as nat + p[1] as nat) ==>
                  a.result == Failure(InvalidCloseCode) &&
                  a.reply == Some(Frame(true, Close, None, [0x03, 0xEA] + p[2..])))
  {
    var p := g.payload;
    SeenExactly(cfg, f, g);
    ProtocolErrorBytes();
    if |p| >= 2 {
      WireFormat.BigEndianDigits(p[..2]);
      if CloseFrame(1002, p[2..]) == CloseRaw(p) {
        assert p[..2] == ToBigEndian(1002, 2);
      }
    }
  }

  /** What the application gets for a Close, and the flag and the bytes after it, on an open or a closed connection. */
  lemma CloseIsRead(cfg: ReadConfig, limit: usize, closed: bool, f: Frame, g: Frame, rest: seq<byte>)
    requires f.opcode.Close? && cfg.autoClose && WellFormed(f, limit) && SeenAs(cfg, f, g)
    ensures var p, r := g.payload, Read(cfg, limit, closed, Encode(f) + rest);
            && r.rest == rest && (r.closed <==> closed || !Malformed(p))
            && r.result == if ProperCloseBody(p) then Success(g)
                           else Failure(if |p| == 1 then InvalidCloseFrame
                                        else if !Utf8.Valid(p[2..]) then InvalidUTF8 else InvalidCloseCode)
  {
    SeenExactly(cfg, f, g);
    RoundTrip(f, rest, limit);
    ReadOnce(cfg, limit, closed, Encode(f) + rest);
  }

  /**
    What the receipt of a Close does to the connection: an open one is closed and the last thing handed to its transport
    is a Close that carries the body back, or 1002 and the reason, unless the body is malformed. On a closed one nothing
    changes.
   */
  lemma CloseAtTheConnection(evs: seq<Event>, ev: Event, g: Frame)
    requires ev.Receipt? && ev.frame.opcode.Close? && ev.cfg.autoClose && SeenAs(ev.cfg, ev.frame, g)
    ensures var before, after, p := RunAll(evs), RunAll(evs + [ev]), g.payload;
            if before.closed || Malformed(p) then after == before
            else
              && after.closed && |after.log| == |before.log| + 1 && before.log <= after.log
              && var last, body := after.log[|before.log|], if ProperCloseBody(p) then p else [0x03, 0xEA] + p[2..];
                 last.auto && GoesOutAs(ev.w, Frame(true, Close, None, body), ev.key, last.frame)
  {
    SeenExactly(ev.cfg, ev.frame, g);
    ProtocolErrorBytes();
    RunAppend(evs, ev);
    var e := RunAll(evs);
    if !e.closed {
      LoggedExactly(e, ev);
    }
    hide RunAll, RunFrom, Put, Encode, Utf8.Valid, CloseCodes.MaySend, GoesOutAs, Dressed, FromBigEndian;
  }

  // ---------- Pings ----------

  /** A Ping is never returned. An open connection answers it with the payload as it is seen, a closed one does not. */
  lemma PingAtTheConnection(evs: seq<Event>, ev: Event, g: Frame, limit: usize, closed: bool, rest: seq<byte>)
    requires ev.Receipt? && ev.frame.opcode.Ping? && ev.cfg.autoPong && SeenAs(ev.cfg, ev.frame, g)
    requires WellFormed(ev.frame, limit)
    ensures Read(ev.cfg, limit, closed, Encode(ev.frame) + rest) == Read(ev.cfg, limit, closed, rest)
    ensures var before, after := RunAll(evs), RunAll(evs + [ev]);
            if before.closed then after == before
            else
              && !after.closed && |after.log| == |before.log| + 1 && before.log <= after.log
              && var last := after.log[|before.log|];
                 last.auto && GoesOutAs(ev.w, Frame(true, Pong, None, g.payload), ev.key, last.frame)
  {
    SeenExactly(ev.cfg, ev.frame, g);
    RoundTrip(ev.frame, rest, limit);
    ReadOnce(ev.cfg, limit, closed, Encode(ev.frame) + rest);
    RunAppend(evs, ev);
    var e := RunAll(evs);
    if !e.closed {
      LoggedExactly(e, ev);
    }
    hide RunAll, RunFrom, Put, Encode, GoesOutAs, Dressed, Read, Parse;
  }

  // ---------- What is returned as it is seen ----------

  /** Every frame that is not answered is returned as it is seen, whatever the four settings are. */
  lemma UnansweredIsReturned(cfg: ReadConfig, limit: usize, f: Frame, g: Frame, rest: seq<byte>)
    requires WellFormed(f, limit) && SeenAs(cfg, f, g)
    requires !(f.opcode.Ping? && cfg.autoPong) && !(f.opcode.Close? && cfg.autoClose)
    ensures Read(cfg, limit, false, Encode(f) + rest) == Reading(Success(g), false, rest)
  {
    SeenExactly(cfg, f, g);
    RoundTrip(f, rest, limit);
    ReadOnce(cfg, limit, false, Encode(f) + rest);
  }

  lemma ProtocolErrorBytes()
    ensures FromBigEndian(ToBigEndian(1002, 2)) == 1002 && ToBigEndian(1002, 2) == [0x03, 0xEA]
  {
    Pow256Values();
    EncodeThenDecode(1002, 2);
    assert ToBigEndian(3, 1) == [0x03];
  }

  // ---------- What the collector delivers ----------

  /**
    Every frame `FragmentCollector::read_frame` returns is final, is no Continuation, is below the size limit and, if it
    is text, valid; and the assembly keeps its invariant, also when the call ends with an error.
   */
  lemma {:induction false} CollectorDelivers(cfg: ReadConfig, limit: usize, closed: bool, s: State, input: seq<byte>)
    requires Inv(s, limit)
    ensures var c := Collect(cfg, limit, closed, s, input);
            Inv(c.assembly, limit) && (c.result.Success? ==> Deliverable(c.result.value, limit))
    decreases |input|
  {
    var p := Parse(input, limit);
    CollectOnce(cfg, limit, closed, s, input);
    ParseProgress(input, limit);
    PassWellFormed(cfg, closed, input, limit);
    GatherKeepsInv(s, ReadPass(cfg, closed, p).done, limit);
    var t := CollectPass(cfg, limit, closed, s, p);
    if t.done.None? {
      CollectorDelivers(cfg, limit, t.closed, t.assembly, p.rest);
    }
  }

  /** On a closed connection only a Close is returned. */
  lemma {:induction false} ClosedReadsOnlyClose(cfg: ReadConfig, limit: usize, s: State, input: seq<byte>)
    ensures var c := Collect(cfg, limit, true, s, input);
            c.closed && (c.result.Success? ==> c.result.value.opcode.Close?)
    decreases |input|
  {
    var p := Parse(input, limit);
    CollectOnce(cfg, limit, true, s, input);
    ParseProgress(input, limit);
    var t := CollectPass(cfg, limit, true, s, p);
    if t.done.None? {
      ClosedReadsOnlyClose(cfg, limit, t.assembly, p.rest);
    }
  }

  // ---------- Not knowing that the connection is closed ----------

  /**
    A reader that does not see the closed flag, as the split one, takes the same frames. Its result is the same unless
    it returns a frame other than a Close, where the joint reader reports a closed connection.
   */
  lemma {:induction false} ClosedReadDiffers(cfg: ReadConfig, limit: usize, input: seq<byte>)
    ensures var blind, joint := Read(cfg, limit, false, input), Read(cfg, limit, true, input);
            && joint.rest == blind.rest
            && joint.result == (if blind.result.Success? && !blind.result.value.opcode.Close?
                                then Failure(ConnectionClosed) else blind.result)
            && (joint.result == blind.result <==> (blind.result.Success? ==> blind.result.value.opcode.Close?))
    decreases |input|
  {
    var p := Parse(input, limit);
    ReadOnce(cfg, limit, false, input);
    ReadOnce(cfg, limit, true, input);
    if ReadPass(cfg, false, p).done.None? {
      ClosedReadDiffers(cfg, limit, p.rest);
    }
  }

  /**
    For the collector: if the joint one finds a Close or an error, so does the blind one, and all else is the same too;
    otherwise the joint one reports a closed connection, which the blind one never does.
   */
  lemma {:induction false} ClosedCollectDiffers(cfg: ReadConfig, limit: usize, s: State, input: seq<byte>)
    ensures var blind, joint := Collect(cfg, limit, false, s, input), Collect(cfg, limit, true, s, input);
            && (joint.result == blind.result <==> joint.result != Failure(ConnectionClosed))
            && (joint.result != Failure(ConnectionClosed) ==>
                  joint.rest == blind.rest && joint.assembly == s && blind.assembly == s)
    decreases |input|
  {
    var p := Parse(input, limit);
    CollectOnce(cfg, limit, false, s, input);
    CollectOnce(cfg, limit, true, s, input);
    NeverReportsClosed(cfg, limit, s, input);
    if CollectPass(cfg, limit, true, s, p).done.None? {
      ClosedCollectDiffers(cfg, limit, s, p.rest);
    }
  }

  lemma {:induction false} NeverReportsClosed(cfg: ReadConfig, limit: usize, s: State, input: seq<byte>)
    ensures Collect(cfg, limit, false, s, input).result != Failure(ConnectionClosed)
    decreases |input|
  {
    var p := Parse(input, limit);
    var t := CollectPass(cfg, limit, false, s, p);
    CollectOnce(cfg, limit, false, s, input);
    ParseErrors(input, limit);
    OpenPassResult(cfg, limit, s, p);
    if t.done.None? {
      hide Parse, CollectPass, Collect;
      NeverReportsClosed(cfg, limit, t.assembly, p.rest);
    }
  }

  lemma OpenPassResult(cfg: ReadConfig, limit: usize, s: State, p: Parsed)
    requires p.Failed? ==> p.error != ConnectionClosed
    ensures var t := CollectPass(cfg, limit, false, s, p);
            && t.done != Some(Failure(ConnectionClosed))
            && (t.done.None? ==> !t.closed)
  {
  }

  // ---------- Controls between data frames ----------

  /** A Ping in front of any bytes changes nothing of what the call returns or leaves, on a closed connection too. */
  lemma PingsAreAbsorbed(cfg: ReadConfig, limit: usize, closed: bool, s: State, f: Frame, rest: seq<byte>)
    requires cfg.autoPong && f.opcode.Ping? && WellFormed(f, limit)
    ensures Collect(cfg, limit, closed, s, Encode(f) + rest) == Collect(cfg, limit, closed, s, rest)
  {
    RoundTrip(f, rest, limit);
    CollectOnce(cfg, limit, closed, s, Encode(f) + rest);
  }

  /** A Pong comes out of a call of its own, which leaves the assembly and the bytes after it as they are. */
  lemma PongsStandAlone(cfg: ReadConfig, limit: usize, s: State, f: Frame, rest: seq<byte>)
    requires f.opcode.Pong? && WellFormed(f, limit)
    ensures Collect(cfg, limit, false, s, Encode(f) + rest) == Collected(Success(Received(cfg, f)), false, s, rest)
  {
    RoundTrip(f, rest, limit);
    CollectOnce(cfg, limit, false, s, Encode(f) + rest);
  }

  // ---------- What `WebSocket::read_frame` does not check ----------

  /**
    `WebSocket::read_frame` returns a Text frame with whatever payload it carries, so the text returned is valid exactly
    if the peer sent it so.
   */
  lemma RawReadDoesNotValidate(cfg: ReadConfig, limit: usize, f: Frame, rest: seq<byte>)
    requires f.opcode.Text? && |f.payload| < limit
    ensures Read(cfg, limit, false, Encode(f) + rest) == Reading(Success(Received(cfg, f)), false, rest)
    ensures cfg.role.Server? && cfg.autoApplyMask ==>
      (Utf8.Valid(Received(cfg, f).payload) <==> Utf8.Valid(Unmasked(f).payload))
    ensures !Utf8.Valid([0xFF])
  {
    Utf8.DecodeDecidesValid([0xFF]);
    RoundTrip(f, rest, limit);
    ReadOnce(cfg, limit, false, Encode(f) + rest);
  }

  // ---------- Writing back what was read ----------

  /** Masking with a key leaves a payload as it is exactly if the octets of the key that are used are zero. */
  lemma XoredKeeps(s: seq<byte>, key: Key)
    ensures Xored(s, key) == s <==> forall i :: 0 <= i < |s| && i < 4 ==> key[i] == 0
  {
    forall i | 0 <= i < |s| ensures Xored(s, key)[i] == s[i] <==> key[i % 4] == 0 {
      XorByteKeeps(s[i], key[i % 4]);
    }
    if Xored(s, key) == s {
      forall i | 0 <= i < |s| && i < 4 ensures key[i] == 0 {
        assert Xored(s, key)[i] == s[i] && i % 4 == i;
      }
    }
  }

  /**
    A server that writes back the frame it read sends it with the key still set and the payload in the clear. A peer
    that unmasks it reads the original payload exactly if there was no key or the octets used were all zero.
   */
  lemma EchoKeepsTheKey(cfg: ReadConfig, w: WriteConfig, f: Frame, key: Key, rest: seq<byte>, limit: usize)
    requires cfg.role.Server? && cfg.autoApplyMask && w.role.Server? && WellFormed(f, limit)
    ensures var g := Received(cfg, f);
            && Parse(Encode(Dressed(w, g, key)) + rest, limit) == Got(g, rest)
            && (Unmasked(g).payload == g.payload <==>
                  f.mask.None? || forall i :: 0 <= i < |f.payload| && i < 4 ==> f.mask.value[i] == 0)
  {
    var g := Received(cfg, f);
    RoundTrip(g, rest, limit);
    if f.mask.Some? {
      XoredKeeps(g.payload, f.mask.value);
    }
  }
}
