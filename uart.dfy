/** The serial port seen by the frame decoder: a blocking byte source.
    The POSIX file descriptor is replaced by a finite script of responses,
    so every read either answers from the script or reports that the
    script has run out. */
module Uart {

  newtype byte = x: int | 0 <= x < 256

  /** One answer the port may give: a hard error, or a chunk of bytes
      (possibly empty: a read that returned zero bytes). */
  datatype Response = Fail | Data(bytes: seq<byte>)

  /** What one `read(fd, buf, size)` reports: the `ssize_t` it returns
      (-1 on error, otherwise the number of bytes stored), or that the
      script has no answer left. */
  datatype ReadOutcome = Returned(result: int) | Exhausted

  /** One read served from a script: the outcome, the bytes stored and the
      script that remains. */
  datatype Served = Served(outcome: ReadOutcome, data: seq<byte>, rest: seq<Response>)

  /** The bytes a script delivers, in order, however they are chunked. */
  function Stream(s: seq<Response>): seq<byte>
  {
    if s == [] then []
    else (if s[0].Data? then s[0].bytes else []) + Stream(s[1..])
  }

  /** A termination measure: every answer counts one, every byte one more. */
  function Size(s: seq<Response>): nat
  {
    if s == [] then 0
    else 1 + (if s[0].Data? then |s[0].bytes| else 0) + Size(s[1..])
  }

  /** Serves a request for at most `size` bytes. A chunk longer than the
      request is split: its first `size` bytes are returned and the rest
      stays at the head of the script, as unread bytes stay in a serial
      driver's queue. */
  function Serve(s: seq<Response>, size: nat): (r: Served)
    requires 0 < size
    ensures r.outcome.Exhausted? <==> s == []
    ensures r.outcome == Returned(-1) <==> s != [] && s[0].Fail?
    ensures r.outcome.Returned? && r.outcome.result != -1 ==>
              r.outcome.result == |r.data| <= size
    ensures r.outcome.Exhausted? || r.outcome == Returned(-1) ==> r.data == []
    ensures Stream(s) == r.data + Stream(r.rest)
    ensures !r.outcome.Exhausted? ==> Size(r.rest) < Size(s)
  {
    if s == [] then Served(Exhausted, [], s)
    else match s[0]
      case Fail => Served(Returned(-1), [], s[1..])
      case Data(d) =>
        if |d| <= size then Served(Returned(|d|), d, s[1..])
        else
          var rest := [Data(d[size..])] + s[1..];
          assert rest[1..] == s[1..];
          assert d == d[..size] + d[size..];
          Served(Returned(size), d[..size], rest)
  }

  /** The contents of a buffer after `data` is stored at `offset`. */
  function Stored(buffer: seq<byte>, offset: nat, data: seq<byte>): (r: seq<byte>)
    requires offset + |data| <= |buffer|
    ensures |r| == |buffer|
    ensures r[..offset] == buffer[..offset]
    ensures r[offset..offset + |data|] == data
    ensures r[offset + |data|..] == buffer[offset + |data|..]
  {
    buffer[..offset] + data + buffer[offset + |data|..]
  }

  /** The serial port. `script` holds the answers still to come. */
  class Uart {
    var script: seq<Response>

    constructor (script: seq<Response>)
      ensures this.script == script
    {
      this.script := script;
    }

    /** `read(fd, buffer + offset, size)`: stores the bytes served at
        `buffer[offset..]` and touches no other cell. */
    method ReadData(buffer: array<byte>, offset: nat, size: nat) returns (r: ReadOutcome)
      requires 0 < size && offset + size <= buffer.Length
      modifies this, buffer
      ensures r == Serve(old(script), size).outcome
      ensures script == Serve(old(script), size).rest
      ensures buffer[..] == Stored(old(buffer[..]), offset, Serve(old(script), size).data)
    {
      var served := Serve(script, size);
      var d := served.data;
      forall i | offset <= i < offset + |d| {
        buffer[i] := d[i - offset];
      }
      assert buffer[..] == Stored(old(buffer[..]), offset, d);
      script := served.rest;
      r := served.outcome;
    }
  }
}
