/** The PMS5003 frame decoder: synchronisation on the start bytes 0x42 0x4D,
    assembly of the 32-byte frame from short reads, the (stubbed) checksum
    verification and the decoding of the three concentrations.

    Each step is given twice: as a function over the UART script, which is
    the specification the lemmas reason about, and as the imperative method
    of `Pms5003` that the firmware runs, proved to follow that function. */
module Pms5003 {
  import opened Uart
  import opened Bits

  const PACKET_SIZE: nat := 32
  const START_BYTE_1: byte := 0x42
  const START_BYTE_2: byte := 0x4D

  /** The decoded concentrations, in micrograms per cubic metre. */
  datatype Reading = Reading(pm1: int, pm25: int, pm10: int)

  /** How one synchronisation attempt ends. `Retry` covers a wrong byte, a
      read that returned no byte and a read error alike. */
  datatype SyncResult = Synced | Retry | SyncExhausted

  /** One synchronisation attempt over a script: how it ended, the stream
      bytes it consumed and the script left. */
  datatype SyncStep = SyncStep(result: SyncResult, consumed: seq<byte>, rest: seq<Response>)

  /** How the assembly loop ends: with all 32 bytes held, on a read error
      (the exception), or because the script ran out. */
  datatype AssemblyStatus = Filled | ReadError | AssemblyExhausted

  /** The end of the assembly loop: its status, the bytes then held at
      `buffer[2..bytesRead]` and the script left. */
  datatype Assembly = Assembly(status: AssemblyStatus, held: seq<byte>, rest: seq<Response>)

  /** What one call of `readData` ends with: a reading, the exception
      thrown on a read error during assembly, or the end of the script. */
  datatype Outcome = Decoded(reading: Reading) | SourceFailure | ScriptExhausted

  datatype Decoding = Decoding(outcome: Outcome, rest: seq<Response>)

  /** The second half of `syncToStartBytes`, entered after a 0x42: read
      one more byte and succeed only if it is 0x4D. */
  function SecondStartByte(s: seq<Response>): (r: SyncStep)
    ensures Stream(s) == r.consumed + Stream(r.rest)
    ensures |r.consumed| <= 1
    ensures r.result == Synced <==> r.consumed == [START_BYTE_2]
    ensures r.result == SyncExhausted ==> r.rest == [] && r.consumed == []
    ensures r.result != SyncExhausted ==> Size(r.rest) < Size(s)
  {
    var second := Serve(s, 1);
    if second.outcome.Exhausted? then SyncStep(SyncExhausted, [], second.rest)
    else if second.outcome.result <= 0 then SyncStep(Retry, [], second.rest)
    else SyncStep(if second.data[0] == START_BYTE_2 then Synced else Retry, second.data, second.rest)
  }

  /** One `syncToStartBytes` attempt: read one byte; only if it is 0x42 read
      a second one; succeed only if that one is 0x4D. A read that returns
      zero or a negative count ends the attempt with `Retry`, as does a
      first byte other than 0x42. */
  function Sync(s: seq<Response>): (r: SyncStep)
    ensures Stream(s) == r.consumed + Stream(r.rest)
    ensures |r.consumed| <= 2
    ensures r.result == SyncExhausted ==> r.rest == []
    ensures r.result != SyncExhausted ==> Size(r.rest) < Size(s)
  {
    var first := Serve(s, 1);
    if first.outcome.Exhausted? then SyncStep(SyncExhausted, [], first.rest)
    else if first.outcome.result <= 0 then SyncStep(Retry, [], first.rest)
    else if first.data[0] != START_BYTE_1 then SyncStep(Retry, first.data, first.rest)
    else
      var second := SecondStartByte(first.rest);
      SyncStep(second.result, first.data + second.consumed, second.rest)
  }

  /** A synchronisation attempt succeeds exactly when the two bytes it took
      from the stream are 0x42 0x4D. It reads a second byte only after a
      0x42, and a second byte that is not 0x4D is consumed, not put back. */
  lemma SyncConsumption(s: seq<Response>)
    ensures Sync(s).result == Synced <==> Sync(s).consumed == [START_BYTE_1, START_BYTE_2]
    ensures |Sync(s).consumed| == 2 ==> Sync(s).consumed[0] == START_BYTE_1
    ensures Sync(s).consumed != [] && Sync(s).consumed[0] != START_BYTE_1 ==> |Sync(s).consumed| == 1
  {
    var first := Serve(s, 1);
    var r := Sync(s);
    if first.outcome.Returned? && first.outcome.result > 0 {
      assert |first.data| == 1;
      OneByte(first.data);
      if first.data[0] == START_BYTE_1 {
        var second := SecondStartByte(first.rest);
        assert r.result == second.result && r.consumed == [START_BYTE_1] + second.consumed;
        AfterFirstStartByte(second.consumed);
      } else {
        assert r.result == Retry && r.consumed == first.data;
        assert [START_BYTE_1, START_BYTE_2][0] == START_BYTE_1;
      }
    } else {
      assert r.result != Synced && r.consumed == [];
    }
  }

  // Sequence facts about the bytes one attempt takes, kept apart so that
  // the proof of `SyncConsumption` stays small.

  lemma OneByte(c: seq<byte>)
    requires |c| == 1
    ensures c == [c[0]]
  {
  }

  lemma AfterFirstStartByte(c: seq<byte>)
    requires |c| <= 1
    ensures |[START_BYTE_1] + c| == 1 + |c| && ([START_BYTE_1] + c)[0] == START_BYTE_1
    ensures [START_BYTE_1] + c == [START_BYTE_1, START_BYTE_2] <==> c == [START_BYTE_2]
  {
    if [START_BYTE_1] + c == [START_BYTE_1, START_BYTE_2] {
      assert c == ([START_BYTE_1] + c)[1..];
    }
  }

  /** The assembly loop, with `held` the bytes already stored at
      `buffer[2..bytesRead]`: while fewer than 32 bytes are held, ask for
      exactly the missing number and append what comes back. */
  function Assemble(s: seq<Response>, held: seq<byte>): (r: Assembly)
    requires |held| <= PACKET_SIZE - 2
    ensures r.status == Filled <==> |r.held| == PACKET_SIZE - 2
    ensures |r.held| <= PACKET_SIZE - 2
    ensures held + Stream(s) == r.held + Stream(r.rest)
    ensures r.status == AssemblyExhausted ==> r.rest == []
    ensures Size(r.rest) <= Size(s)
    decreases Size(s)
  {
    var bytesRead := 2 + |held|;
    if bytesRead == PACKET_SIZE then Assembly(Filled, held, s)
    else
      var served := Serve(s, PACKET_SIZE - bytesRead);
      if served.outcome.Exhausted? then Assembly(AssemblyExhausted, held, served.rest)
      else if served.outcome.result < 0 then Assembly(ReadError, held, served.rest)
      else Assemble(served.rest, held + served.data)
  }

  /** `verifyChecksum` as the firmware has it: the check is bypassed and
      every frame is accepted. */
  function VerifyChecksum(frame: seq<byte>): (ok: bool)
    ensures ok
  {
    true
  }

  /** `(hi << 8) | lo` on C++ `int`, after the promotion of both bytes. */
  function BigEndian16(hi: byte, lo: byte): (v: int)
    ensures v == hi as int * 256 + lo as int
    ensures 0 <= v < 0x1_0000
  {
    assert Pow2(8) == 256;
    BitOrDisjoint(hi as nat, lo as nat, 8);
    BitOr(ShiftLeft(hi as nat, 8), lo as nat)
  }

  /** `parseData`: the three big-endian 16-bit fields at offsets 10, 12 and 14. */
  function ParseData(frame: seq<byte>): (r: Reading)
    requires |frame| >= 16
    ensures r.pm1 == frame[10] as int * 256 + frame[11] as int
    ensures r.pm25 == frame[12] as int * 256 + frame[13] as int
    ensures r.pm10 == frame[14] as int * 256 + frame[15] as int
    ensures 0 <= r.pm1 < 0x1_0000 && 0 <= r.pm25 < 0x1_0000 && 0 <= r.pm10 < 0x1_0000
  {
    Reading(BigEndian16(frame[10], frame[11]),
            BigEndian16(frame[12], frame[13]),
            BigEndian16(frame[14], frame[15]))
  }

  /** `PMS5003::readData`: synchronise, assemble, verify with `verify`,
      and either decode or start over. `head` stands for `buffer[0..2]`,
      which nothing writes. */
  function Decode(s: seq<Response>, head: seq<byte>, verify: seq<byte> -> bool): (r: Decoding)
    requires |head| == 2
    ensures Size(r.rest) <= Size(s)
    decreases Size(s)
  {
    var sync := Sync(s);
    match sync.result
    case SyncExhausted => Decoding(ScriptExhausted, sync.rest)
    case Retry => Decode(sync.rest, head, verify)
    case Synced =>
      var assembly := Assemble(sync.rest, []);
      match assembly.status
      case ReadError => Decoding(SourceFailure, assembly.rest)
      case AssemblyExhausted => Decoding(ScriptExhausted, assembly.rest)
      case Filled =>
        var frame := head + assembly.held;
        if verify(frame) then Decoding(Decoded(ParseData(frame)), assembly.rest)
        else Decode(assembly.rest, head, verify)
  }

  /** One turn of the assembly loop, so that the loop's proof need not
      unfold `Assemble` itself. */
  lemma AssembleStep(s: seq<Response>, held: seq<byte>)
    requires |held| < PACKET_SIZE - 2
    ensures var served := Serve(s, PACKET_SIZE - 2 - |held|);
      Assemble(s, held) ==
        if served.outcome.Exhausted? then Assembly(AssemblyExhausted, held, served.rest)
        else if served.outcome.result < 0 then Assembly(ReadError, held, served.rest)
        else Assemble(served.rest, held + served.data)
  {
  }

  /** Storing a chunk at `bytesRead` leaves `buffer[0..2]` alone and extends
      `buffer[2..bytesRead]` by the chunk. */
  lemma StoredKeepsFrame(before: seq<byte>, bytesRead: nat, data: seq<byte>)
    requires 2 <= bytesRead && bytesRead + |data| <= |before|
    ensures Stored(before, bytesRead, data)[..2] == before[..2]
    ensures Stored(before, bytesRead, data)[2..bytesRead + |data|] == before[2..bytesRead] + data
  {
    var after := Stored(before, bytesRead, data);
    assert after[..2] == after[..bytesRead][..2];
    assert after[2..bytesRead + |data|] == after[..bytesRead][2..] + after[bytesRead..bytesRead + |data|];
  }

  /** The sensor driver. `buffer` is the 32-byte frame buffer; its first two
      cells are never written, so they keep whatever they held. */
  class Pms5003 {
    const uart: Uart
    const buffer: array<byte>

    ghost predicate Valid()
    {
      buffer.Length == PACKET_SIZE
    }

    constructor (uart: Uart)
      ensures Valid() && this.uart == uart && fresh(buffer)
    {
      this.uart := uart;
      buffer := new byte[PACKET_SIZE];
    }

    /** `syncToStartBytes`: the start bytes go to a local array, not to
        `buffer`; the 100 ms sleeps are no-ops. */
    method SyncToStartBytes() returns (r: SyncResult)
      modifies uart
      ensures r == Sync(old(uart.script)).result
      ensures uart.script == Sync(old(uart.script)).rest
    {
      ghost var s := uart.script;
      var startBytes := new byte[2];
      var result := uart.ReadData(startBytes, 0, 1);
      if result.Exhausted? {
        return SyncExhausted;
      }
      if result.result <= 0 {
        return Retry;
      }
      if startBytes[0] != START_BYTE_1 {
        return Retry;
      }
      ghost var afterFirst := uart.script;
      result := uart.ReadData(startBytes, 1, 1);
      assert uart.script == Serve(afterFirst, 1).rest;
      if result.Exhausted? {
        return SyncExhausted;
      }
      if result.result <= 0 {
        return Retry;
      }
      r := if startBytes[1] == START_BYTE_2 then Synced else Retry;
    }

    /** The assembly loop of `readData`: fill `buffer[2..32]` from short
        reads, asking each time for exactly the bytes still missing. A
        negative read result ends the loop as the C++ exception does. */
    method AssembleFrame() returns (status: AssemblyStatus)
      requires Valid()
      modifies uart, buffer
      ensures status == Assemble(old(uart.script), []).status
      ensures uart.script == Assemble(old(uart.script), []).rest
      ensures buffer[..2] == old(buffer[..2])
      ensures status == Filled ==> buffer[2..] == Assemble(old(uart.script), []).held
    {
      ghost var start := uart.script;
      ghost var head := buffer[..2];
      ghost var held: seq<byte> := [];
      var bytesRead := 2;
      while bytesRead < PACKET_SIZE
        invariant 2 <= bytesRead <= PACKET_SIZE
        invariant buffer[..2] == head
        invariant |held| == bytesRead - 2
        invariant buffer[2..bytesRead] == held
        invariant Assemble(uart.script, held) == Assemble(start, [])
        decreases Size(uart.script)
      {
        ghost var before := buffer[..];
        ghost var served := Serve(uart.script, PACKET_SIZE - bytesRead);
        AssembleStep(uart.script, held);
        var result := uart.ReadData(buffer, bytesRead, PACKET_SIZE - bytesRead);
        assert result == served.outcome && uart.script == served.rest;
        if result.Exhausted? {
          return AssemblyExhausted;
        }
        if result.result < 0 {
          return ReadError;
        }
        assert result.result == |served.data|;
        StoredKeepsFrame(before, bytesRead, served.data);
        bytesRead := bytesRead + result.result;
        held := held + served.data;
      }
      assert buffer[2..] == buffer[2..bytesRead];
      return Filled;
    }

    /** `readData`, generic over the frame check; the firmware passes
        `VerifyChecksum`. On a decoded outcome the buffer holds the
        accepted frame. */
    method ReadData(verify: seq<byte> -> bool) returns (outcome: Outcome)
      requires Valid()
      modifies uart, buffer
      ensures outcome == Decode(old(uart.script), old(buffer[..2]), verify).outcome
      ensures uart.script == Decode(old(uart.script), old(buffer[..2]), verify).rest
      ensures buffer[..2] == old(buffer[..2])
      ensures outcome.Decoded? ==> verify(buffer[..]) && outcome.reading == ParseData(buffer[..])
    {
      ghost var head := buffer[..2];
      ghost var goal := Decode(uart.script, head, verify);
      while true
        invariant buffer[..2] == head
        invariant Decode(uart.script, head, verify) == goal
        decreases Size(uart.script)
      {
        var synced := SyncToStartBytes();
        if synced == SyncExhausted {
          return ScriptExhausted;
        }
        if synced == Retry {
          continue;
        }
        var status := AssembleFrame();
        if status == ReadError {
          return SourceFailure;
        }
        if status == AssemblyExhausted {
          return ScriptExhausted;
        }
        assert buffer[..] == head + buffer[2..];
        if verify(buffer[..]) {
          return Decoded(ParseData(buffer[..]));
        }
      }
    }
  }
}
