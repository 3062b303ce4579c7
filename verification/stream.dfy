/**
  The transport. How many bytes a call moves, and whether it fails, is up to the transport: every contract proved over
  this class holds for every way of cutting the input and for every sequence of short writes.
 */
module Streams {
  import opened Bytes
  import opened Errors

  /** How many of `limit` bytes one call moves: none only if there are none. */
  method AnyCount(limit: nat) returns (n: nat)
    ensures n <= limit && (n == 0 <==> limit == 0)
  {
    assert limit <= limit && (limit == 0 <==> limit == 0);
    n :| 0 <= n <= limit && (n == 0 <==> limit == 0);
  }

  class Stream {
    /** Bytes the peer has sent and nobody has read, up to the end of the stream. */
    var unread: seq<byte>
    /** Bytes this side has put on the wire. */
    var wire: seq<byte>
    /** How many calls of the transport have failed. */
    ghost var failures: nat

    constructor (input: seq<byte>)
      ensures unread == input && wire == [] && failures == 0
    {
      unread, wire, failures := input, [], 0;
    }

    /** `read_buf`: any non-zero number of bytes, or none at the end of the stream, or an error. */
    method ReadBuf() returns (r: Result<seq<byte>, Error>)
      modifies this`unread, this`failures
      ensures r.Success? ==> r.value + unread == old(unread) && (r.value == [] <==> old(unread) == [])
      ensures r.Failure? ==> r.error == IoError && unread == old(unread)
      ensures failures == old(failures) + if r.Failure? then 1 else 0
    {
      var fails: bool := *;
      if fails {
        failures := failures + 1;
        return Failure(IoError);
      }
      var n := AnyCount(|unread|);
      r := Success(unread[..n]);
      unread := unread[n..];
    }

    /** `write_vectored` on two slices: accepts at least one byte, or fails. */
    method WriteVectored(a: seq<byte>, b: seq<byte>) returns (r: Result<nat, Error>)
      requires a + b != []
      modifies this`wire, this`failures
      ensures r.Success? ==> 1 <= r.value <= |a + b| && wire == old(wire) + (a + b)[..r.value]
      ensures r.Failure? ==> r.error == IoError && wire == old(wire)
      ensures failures == old(failures) + if r.Failure? then 1 else 0
    {
      var fails: bool := *;
      if fails {
        failures := failures + 1;
        return Failure(IoError);
      }
      var n := AnyCount(|a + b|);
      wire := wire + (a + b)[..n];
      r := Success(n);
    }

    /** `write_all`: `sent` bytes reach the wire, all of them unless the transport fails. */
    method WriteAll(b: seq<byte>) returns (r: Result<(), Error>, ghost sent: nat)
      modifies this`wire, this`failures
      ensures sent <= |b| && wire == old(wire) + b[..sent]
      ensures r == if sent == |b| then Success(()) else Failure(IoError)
      ensures failures == old(failures) + if r.Failure? then 1 else 0
    {
      var n := 0;
      assert b[..0] == [];
      while n < |b|
        invariant n <= |b| && wire == old(wire) + b[..n] && failures == old(failures)
      {
        var k := WriteVectored(b[n..], []);
        if k.Failure? {
          return Failure(IoError), n;
        }
        assert (b[n..] + [])[..k.value] == b[n..n + k.value];
        assert b[..n + k.value] == b[..n] + b[n..n + k.value];
        n := n + k.value;
      }
      return Success(()), n;
    }
  }
}
