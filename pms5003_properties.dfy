/** What the PMS5003 decoder guarantees, stated over the UART script and
    proved from the specification functions of module Pms5003. */
module Pms5003Properties {
  import opened Uart
  import opened Pms5003

  /** Blocking and error-free reads: every answer holds at least one byte
      (what VMIN = 1 gives) and no answer is a read error (which VMIN = 1
      does not rule out). */
  ghost predicate Blocking(s: seq<Response>)
  {
    forall i :: 0 <= i < |s| ==> s[i].Data? && s[i].bytes != []
  }

  /** The script delivers its first `k` stream bytes before any read error
      and before it runs out; zero-length answers may come in between. */
  ghost predicate Delivers(s: seq<Response>, k: nat)
    decreases |s|
  {
    k == 0 || (s != [] && s[0].Data? && Delivers(s[1..], if |s[0].bytes| >= k then 0 else k - |s[0].bytes|))
  }

  /** The script answers with a read error before it has delivered `k` bytes. */
  ghost predicate FailsWithin(s: seq<Response>, k: nat)
    decreases |s|
  {
    k > 0 && s != [] && (s[0].Fail? || FailsWithin(s[1..], if |s[0].bytes| >= k then 0 else k - |s[0].bytes|))
  }

  // ---------------------------------------------------------------------------
  // Synchronisation

  /** Read errors and empty reads during synchronisation are transient: the
      attempt ends with `Retry` and no failure, whether the first or the
      second read is the one that fails. */
  lemma SyncReadFailureIsTransient(s: seq<Response>)
    ensures s != [] && (s[0].Fail? || s[0] == Data([])) ==>
              Sync(s) == SyncStep(Retry, [], s[1..])
    ensures |s| >= 2 && s[0] == Data([START_BYTE_1]) && (s[1].Fail? || s[1] == Data([])) ==>
              Sync(s) == SyncStep(Retry, [START_BYTE_1], s[2..])
  {
    if |s| >= 2 && s[0] == Data([START_BYTE_1]) {
      assert Serve(s, 1).rest == s[1..];
      assert s[1..][1..] == s[2..];
    }
  }

  /** Under blocking, error-free reads a served request returns the next bytes of the
      stream, at least one of them, and the rest of the script still
      blocks. */
  lemma BlockingServe(s: seq<Response>, size: nat)
    requires Blocking(s) && s != [] && 0 < size
    ensures Serve(s, size).outcome.Returned? && Serve(s, size).outcome.result >= 1
    ensures Serve(s, size).data == Stream(s)[..|Serve(s, size).data|]
    ensures Blocking(Serve(s, size).rest)
  {
    var r := Serve(s, size);
    assert Stream(s) == r.data + Stream(r.rest);
    forall i | 0 <= i < |r.rest|
      ensures r.rest[i].Data? && r.rest[i].bytes != []
    {
      if |s[0].bytes| <= size {
        assert r.rest[i] == s[i + 1];
      } else if i > 0 {
        assert r.rest[i] == s[i];
      }
    }
  }

  /** Under blocking, error-free reads one attempt takes exactly one byte unless that
      byte is 0x42, and then exactly two. */
  lemma BlockingSync(s: seq<Response>)
    requires Blocking(s) && |Stream(s)| >= 2
    ensures Sync(s).result != SyncExhausted
    ensures Blocking(Sync(s).rest)
    ensures Sync(s).consumed == Stream(s)[..if Stream(s)[0] == START_BYTE_1 then 2 else 1]
  {
    BlockingOneByte(s);
    var first := Serve(s, 1);
    if first.data[0] == START_BYTE_1 {
      BlockingOneByte(first.rest);
      var st := Stream(s);
      assert st[..2] == st[..1] + Stream(first.rest)[..1];
    }
  }

  /** Under blocking, error-free reads a one-byte request is answered with the next
      byte of a nonempty stream. */
  lemma BlockingOneByte(s: seq<Response>)
    requires Blocking(s) && Stream(s) != []
    ensures Serve(s, 1).outcome == Returned(1)
    ensures Serve(s, 1).data == Stream(s)[..1]
    ensures Stream(Serve(s, 1).rest) == Stream(s)[1..]
    ensures Blocking(Serve(s, 1).rest)
  {
    assert s != [];
    BlockingServe(s, 1);
  }



  /** A failed synchronisation attempt loses nothing but the bytes it took:
      decoding goes on from where it stopped. */
  lemma RetryContinuesDecoding(s: seq<Response>, head: seq<byte>, verify: seq<byte> -> bool)
    requires |head| == 2 && Sync(s).result == Retry
    ensures Decode(s, head, verify) == Decode(Sync(s).rest, head, verify)
  {
  }

  /** A read error or an empty read during synchronisation costs only that
      answer, and the lone 0x42 before it when it is the second read:
      decoding goes on with the rest of the script. */
  lemma ReadFailureDuringSyncIsSkipped(s: seq<Response>, head: seq<byte>, verify: seq<byte> -> bool)
    requires |head| == 2
    ensures s != [] && (s[0].Fail? || s[0] == Data([])) ==>
              Decode(s, head, verify) == Decode(s[1..], head, verify)
    ensures |s| >= 2 && s[0] == Data([START_BYTE_1]) && (s[1].Fail? || s[1] == Data([])) ==>
              Decode(s, head, verify) == Decode(s[2..], head, verify)
  {
    SyncReadFailureIsTransient(s);
    if Sync(s).result == Retry {
      RetryContinuesDecoding(s, head, verify);
    }
  }

  /** When a read may come back empty, a doubled 0x42 need not lose the frame: an
      empty read right after the first 0x42 ends that attempt, and the
      second 0x42 is then tested afresh as a first start byte. The stream
      is the one of `DoubledStartByteLosesFrame`. */
  lemma EmptyReadRetestsStartByte(s: seq<Response>, rest: seq<Response>, head: seq<byte>, verify: seq<byte> -> bool,
                                  payload: seq<byte>, tail: seq<byte>)
    requires |head| == 2 && |payload| == PACKET_SIZE - 2
    requires s == [Data([START_BYTE_1]), Data([])] + rest
    requires Blocking(rest) && Stream(rest) == [START_BYTE_1, START_BYTE_2] + (payload + tail)
    requires verify(head + payload)
    ensures Stream(s) == [START_BYTE_1, START_BYTE_1, START_BYTE_2] + (payload + tail)
    ensures Decode(s, head, verify).outcome == Decoded(ParseData(head + payload))
  {
    StreamAfterEmptyRead(s, rest);
    DoubledStartBytes(Stream(rest), payload + tail);
    ReadFailureDuringSyncIsSkipped(s, head, verify);
    FrameAtStart(rest, head, verify, payload, tail);
  }

  // The script and stream facts about a lone 0x42 and an empty read,
  // kept out of `EmptyReadRetestsStartByte` to keep its proof small.
  lemma StreamAfterEmptyRead(s: seq<Response>, rest: seq<Response>)
    requires s == [Data([START_BYTE_1]), Data([])] + rest
    ensures s[2..] == rest && Stream(s) == [START_BYTE_1] + Stream(rest)
  {
    assert s[1..][1..] == rest && s[2..] == rest;
    assert Stream(s) == [START_BYTE_1] + ([] + Stream(rest));
  }

  // A sequence identity, kept apart so the proof using it stays small.
  lemma DoubledStartBytes(st: seq<byte>, body: seq<byte>)
    requires st == [START_BYTE_1, START_BYTE_2] + body
    ensures [START_BYTE_1] + st == [START_BYTE_1, START_BYTE_1, START_BYTE_2] + body
  {
  }

  /** A second byte other than 0x4D is consumed and not tested again as a
      first start byte, even when it is itself 0x42. */
  lemma SecondByteNotRetested(s: seq<Response>, x: byte)
    requires Blocking(s) && |Stream(s)| >= 2
    requires Stream(s)[..2] == [START_BYTE_1, x] && x != START_BYTE_2
    ensures Sync(s).result == Retry
    ensures Sync(s).consumed == [START_BYTE_1, x]
    ensures Stream(Sync(s).rest) == Stream(s)[2..]
  {
    BlockingSync(s);
    SyncConsumption(s);
    assert Stream(s)[0] == Stream(s)[..2][0];
  }

  /** A stream without a 0x42 never yields a reading: the decoder retries
      until the script runs out. */
  lemma {:induction false} NoStartByteNoReading(s: seq<Response>, head: seq<byte>, verify: seq<byte> -> bool)
    requires |head| == 2
    requires START_BYTE_1 !in Stream(s)
    ensures Decode(s, head, verify) == Decoding(ScriptExhausted, [])
    decreases Size(s)
  {
    var sync := Sync(s);
    SyncConsumption(s);
    if sync.result == Retry {
      assert Stream(s) == sync.consumed + Stream(sync.rest);
      assert forall b :: b in Stream(sync.rest) ==> b in Stream(s);
      NoStartByteNoReading(sync.rest, head, verify);
    }
  }

  /** The consequence of not re-testing: with blocking, error-free reads a
      stream 42 42 4D followed by bytes without 0x42 (a frame body, say)
      yields no reading at all, however it is cut into non-empty reads,
      because the second 0x42 is consumed as a failed second start byte.
      An empty read between the two 0x42 changes that; see
      `EmptyReadRetestsStartByte`. */
  lemma DoubledStartByteLosesFrame(s: seq<Response>, payload: seq<byte>, head: seq<byte>,
                                   verify: seq<byte> -> bool)
    requires |head| == 2 && Blocking(s)
    requires Stream(s) == [START_BYTE_1, START_BYTE_1, START_BYTE_2] + payload
    requires START_BYTE_1 !in payload
    ensures Decode(s, head, verify) == Decoding(ScriptExhausted, [])
  {
    DoubledStartBytePrefix(Stream(s), payload);
    SecondByteNotRetested(s, START_BYTE_1);
    var rest := Sync(s).rest;
    RetryContinuesDecoding(s, head, verify);
    NoStartByteNoReading(rest, head, verify);
  }

  // A sequence identity, kept apart so the proof using it stays small.
  lemma DoubledStartBytePrefix(st: seq<byte>, payload: seq<byte>)
    requires st == [START_BYTE_1, START_BYTE_1, START_BYTE_2] + payload
    ensures |st| >= 2 && st[..2] == [START_BYTE_1, START_BYTE_1]
    ensures st[2..] == [START_BYTE_2] + payload
  {
  }

  // ---------------------------------------------------------------------------
  // Assembly

  /** Under blocking, error-free reads a script with at least `k` stream bytes delivers them. */
  lemma {:induction false} BlockingDelivers(s: seq<Response>, k: nat)
    requires Blocking(s) && |Stream(s)| >= k
    ensures Delivers(s, k)
    decreases |s|
  {
    if k > 0 {
      assert s != [];
      var n := |s[0].bytes|;
      assert Stream(s) == s[0].bytes + Stream(s[1..]);
      BlockingDelivers(s[1..], if n >= k then 0 else k - n);
    }
  }

  /** Assembly fills the buffer exactly when the missing bytes arrive
      before a read error or the end of the script, however the stream is
      cut into reads. */
  lemma {:induction false} AssembleFillsIffDelivered(s: seq<Response>, held: seq<byte>)
    requires |held| <= PACKET_SIZE - 2
    ensures Delivers(s, PACKET_SIZE - 2 - |held|) <==> Assemble(s, held).status == Filled
    decreases |s|
  {
    var k := PACKET_SIZE - 2 - |held|;
    if k > 0 && s != [] && s[0].Data? {
      AssembleStep(s, held);
      var d := s[0].bytes;
      if |d| < k {
        assert Serve(s, k).rest == s[1..] && Serve(s, k).data == d;
        assert Assemble(s, held) == Assemble(s[1..], held + d);
        assert Delivers(s, k) == Delivers(s[1..], k - |d|);
        AssembleFillsIffDelivered(s[1..], held + d);
      } else {
        var served := Serve(s, k);
        assert |served.data| == k;
        assert Assemble(s, held).status == Filled by {
          assert Assemble(s, held) == Assemble(served.rest, held + served.data);
        }
        assert Delivers(s, k) by {
          assert Delivers(s[1..], 0);
        }
      }
    }
  }

  /** A filled buffer holds exactly the bytes it held before followed by
      the next bytes of the stream, however the stream is cut into reads. */
  lemma {:induction false} AssembledBytesAreNextInStream(s: seq<Response>, held: seq<byte>)
    requires |held| <= PACKET_SIZE - 2
    requires Assemble(s, held).status == Filled
    ensures Assemble(s, held).held == held + Stream(s)[..PACKET_SIZE - 2 - |held|]
    decreases |s|
  {
    var k := PACKET_SIZE - 2 - |held|;
    if k > 0 {
      AssembleStep(s, held);
      var d := s[0].bytes;
      assert Stream(s) == d + Stream(s[1..]);
      if |d| < k {
        assert Serve(s, k).rest == s[1..] && Serve(s, k).data == d;
        AssembledBytesAreNextInStream(s[1..], held + d);
        assert Stream(s)[..k] == d + Stream(s[1..])[..k - |d|];
      } else {
        assert Serve(s, k).data == d[..k];
        assert Stream(s)[..k] == d[..k];
      }
    }
  }

  /** A negative read result during assembly comes from, and only from, a
      read error the script gives before the missing bytes are in. */
  lemma {:induction false} AssembleFailsOnlyOnReadError(s: seq<Response>, held: seq<byte>)
    requires |held| <= PACKET_SIZE - 2
    ensures FailsWithin(s, PACKET_SIZE - 2 - |held|) <==> Assemble(s, held).status == ReadError
    decreases |s|
  {
    var k := PACKET_SIZE - 2 - |held|;
    if k > 0 && s != [] && s[0].Data? {
      AssembleStep(s, held);
      var d := s[0].bytes;
      if |d| < k {
        assert Serve(s, k).rest == s[1..] && Serve(s, k).data == d;
        assert Assemble(s, held) == Assemble(s[1..], held + d);
        assert FailsWithin(s, k) == FailsWithin(s[1..], k - |d|);
        AssembleFailsOnlyOnReadError(s[1..], held + d);
      } else {
        var served := Serve(s, k);
        assert |served.data| == k;
        assert Assemble(s, held).status == Filled by {
          assert Assemble(s, held) == Assemble(served.rest, held + served.data);
        }
        assert !FailsWithin(s, k) by {
          assert !FailsWithin(s[1..], 0);
        }
      }
    }
  }

  // ---------------------------------------------------------------------------
  // The whole read

  /** `stream` is `skipped`, the start bytes, the 30 bytes `payload` and then
      `left`; the check accepts the frame `head + payload` and `reading` is
      its decoding. */
  ghost predicate AcceptedFrameIn(stream: seq<byte>, left: seq<byte>, head: seq<byte>, verify: seq<byte> -> bool,
                                  reading: Reading, skipped: seq<byte>, payload: seq<byte>)
  {
    && |head| == 2
    && |payload| == PACKET_SIZE - 2
    && stream == skipped + [START_BYTE_1, START_BYTE_2] + payload + left
    && verify(head + payload)
    && reading == ParseData(head + payload)
  }

  /** A reading comes only from a frame that the check accepted, whose 30
      bytes after the start bytes follow a 0x42 0x4D in the stream; the
      reading is the decoding of that frame. */
  lemma {:induction false} DecodedFromAcceptedFrame(s: seq<Response>, head: seq<byte>, verify: seq<byte> -> bool)
    requires |head| == 2
    requires Decode(s, head, verify).outcome.Decoded?
    ensures exists skipped: seq<byte>, payload: seq<byte> ::
              AcceptedFrameIn(Stream(s), Stream(Decode(s, head, verify).rest), head, verify,
                              Decode(s, head, verify).outcome.reading, skipped, payload)
    decreases Size(s)
  {
    var r := Decode(s, head, verify);
    var sync := Sync(s);
    var start := [START_BYTE_1, START_BYTE_2];
    SyncConsumption(s);
    if sync.result == Retry {
      assert r == Decode(sync.rest, head, verify);
      DecodedFromAcceptedFrame(sync.rest, head, verify);
      AcceptedFrameAfterPrefix(sync.consumed, Stream(sync.rest), Stream(r.rest), head, verify, r.outcome.reading);
    } else {
      var assembly := Assemble(sync.rest, []);
      assert Stream(s) == start + (assembly.held + Stream(assembly.rest)) by {
        assert [] + Stream(sync.rest) == Stream(sync.rest);
      }
      assert sync.result == Synced && assembly.status == Filled;
      if verify(head + assembly.held) {
        assert r == Decoding(Decoded(ParseData(head + assembly.held)), assembly.rest);
        RegroupFront(start, assembly.held, Stream(assembly.rest));
        assert AcceptedFrameIn(Stream(s), Stream(r.rest), head, verify, r.outcome.reading, [], assembly.held);
      } else {
        assert r == Decode(assembly.rest, head, verify);
        DecodedFromAcceptedFrame(assembly.rest, head, verify);
        Regroup3(start, assembly.held, Stream(assembly.rest));
        AcceptedFrameAfterPrefix(start + assembly.held, Stream(assembly.rest), Stream(r.rest), head, verify,
                                 r.outcome.reading);
      }
    }
  }

  /** Bytes put in front of a stream that holds an accepted frame become
      part of what is skipped before it. */
  lemma AcceptedFrameAfterPrefix(prefix: seq<byte>, stream: seq<byte>, left: seq<byte>, head: seq<byte>,
                                 verify: seq<byte> -> bool, reading: Reading)
    requires exists skipped: seq<byte>, payload: seq<byte> ::
               AcceptedFrameIn(stream, left, head, verify, reading, skipped, payload)
    ensures exists skipped: seq<byte>, payload: seq<byte> ::
              AcceptedFrameIn(prefix + stream, left, head, verify, reading, skipped, payload)
  {
    var skipped: seq<byte>, payload: seq<byte> :|
      AcceptedFrameIn(stream, left, head, verify, reading, skipped, payload);
    Regroup(prefix, skipped, [START_BYTE_1, START_BYTE_2], payload, left);
    assert AcceptedFrameIn(prefix + stream, left, head, verify, reading, prefix + skipped, payload);
  }

  // Regroupings of concatenations, kept apart so that the proofs above do
  // not have to search for them.

  lemma Regroup(a: seq<byte>, b: seq<byte>, c: seq<byte>, d: seq<byte>, e: seq<byte>)
    ensures a + (b + c + d + e) == a + b + c + d + e
  {
  }

  lemma Regroup3(a: seq<byte>, b: seq<byte>, c: seq<byte>)
    ensures a + (b + c) == a + b + c
  {
  }

  lemma RegroupFront(a: seq<byte>, b: seq<byte>, c: seq<byte>)
    ensures a + (b + c) == [] + a + b + c
  {
  }

  /** After the start bytes, a read error that the script gives before the
      frame is complete ends the call with `SourceFailure` and no reading. */
  lemma AssemblyReadErrorIsFatal(s: seq<Response>, head: seq<byte>, verify: seq<byte> -> bool)
    requires |head| == 2
    requires Sync(s).result == Synced && FailsWithin(Sync(s).rest, PACKET_SIZE - 2)
    ensures Decode(s, head, verify).outcome == SourceFailure
  {
    var rest := Sync(s).rest;
    var none: seq<byte> := [];
    assert PACKET_SIZE - 2 - |none| == PACKET_SIZE - 2;
    AssembleFailsOnlyOnReadError(rest, none);
    SyncedReadErrorFails(s, head, verify);
  }

  /** The step of `Decode` that turns a failed assembly into `SourceFailure`. */
  lemma SyncedReadErrorFails(s: seq<Response>, head: seq<byte>, verify: seq<byte> -> bool)
    requires |head| == 2
    requires Sync(s).result == Synced && Assemble(Sync(s).rest, []).status == ReadError
    ensures Decode(s, head, verify).outcome == SourceFailure
  {
  }

  /** A rejected frame is dropped and the decoder starts over, as a fresh
      one would, on a script that holds exactly the bytes after the frame
      and still blocks. */
  lemma RejectedFrameRestartsSync(s: seq<Response>, head: seq<byte>, verify: seq<byte> -> bool,
                                  payload: seq<byte>, tail: seq<byte>)
    requires |head| == 2 && |payload| == PACKET_SIZE - 2
    requires Blocking(s)
    requires Stream(s) == [START_BYTE_1, START_BYTE_2] + (payload + tail)
    requires !verify(head + payload)
    ensures exists left: seq<Response> ::
              Blocking(left) && Stream(left) == tail && Decode(s, head, verify) == Decode(left, head, verify)
  {
    FrameAtStartAssembles(s, payload, tail);
    var left := Assemble(Sync(s).rest, []).rest;
    assert Decode(s, head, verify) == Decode(left, head, verify);
  }

  /** A frame assembled right after the start bytes and accepted by the
      check is the one decoded. */
  lemma AcceptedFrameIsDecoded(s: seq<Response>, head: seq<byte>, verify: seq<byte> -> bool)
    requires |head| == 2
    requires Sync(s).result == Synced && Assemble(Sync(s).rest, []).status == Filled
    requires verify(head + Assemble(Sync(s).rest, []).held)
    ensures Decode(s, head, verify) ==
              Decoding(Decoded(ParseData(head + Assemble(Sync(s).rest, []).held)),
                       Assemble(Sync(s).rest, []).rest)
  {
  }

  datatype Option<T> = None | Some(value: T)

  /** The script left after the first synchronisation attempt that
      succeeds, however many attempts end in `Retry` before it; `None` when
      the script runs out first. It follows `Decode`'s retry recursion but
      stops before any assembly, so it names that one attempt without
      saying what `Decode` then does with the frame. */
  ghost function FirstSynchronisation(s: seq<Response>): Option<seq<Response>>
    decreases Size(s)
  {
    var sync := Sync(s);
    match sync.result
    case SyncExhausted => None
    case Retry => FirstSynchronisation(sync.rest)
    case Synced => Some(sync.rest)
  }

  /** With the bypassed check the decoder assembles exactly one frame, the
      one after the first successful synchronisation: that frame is
      decoded, or the call ends with what stopped its assembly. */
  lemma {:induction false} FirstAssembledFrameIsDecoded(s: seq<Response>, head: seq<byte>)
    requires |head| == 2
    ensures FirstSynchronisation(s).None? ==> Decode(s, head, VerifyChecksum).outcome == ScriptExhausted
    ensures FirstSynchronisation(s).Some? ==>
              var assembly := Assemble(FirstSynchronisation(s).value, []);
              Decode(s, head, VerifyChecksum).outcome ==
                if assembly.status == Filled then Decoded(ParseData(head + assembly.held))
                else if assembly.status == ReadError then SourceFailure
                else ScriptExhausted
    decreases Size(s)
  {
    if Sync(s).result == Retry {
      RetryContinuesDecoding(s, head, VerifyChecksum);
      FirstAssembledFrameIsDecoded(Sync(s).rest, head);
    }
  }

  /** Under blocking, error-free reads assembly leaves a script that still blocks. */
  lemma {:induction false} BlockingAssemble(s: seq<Response>, held: seq<byte>)
    requires |held| <= PACKET_SIZE - 2 && Blocking(s)
    ensures Blocking(Assemble(s, held).rest)
    decreases Size(s)
  {
    if |held| < PACKET_SIZE - 2 && s != [] {
      var k := PACKET_SIZE - 2 - |held|;
      AssembleStep(s, held);
      BlockingServe(s, k);
      var served := Serve(s, k);
      BlockingAssemble(served.rest, held + served.data);
    }
  }

  /** Under blocking, error-free reads a stream that begins with the start bytes and a
      full frame synchronises at once and assembles exactly that frame,
      however it is cut into reads; the script left holds the rest of the
      stream and still blocks. */
  lemma FrameAtStartAssembles(s: seq<Response>, payload: seq<byte>, tail: seq<byte>)
    requires |payload| == PACKET_SIZE - 2
    requires Blocking(s)
    requires Stream(s) == [START_BYTE_1, START_BYTE_2] + (payload + tail)
    ensures Sync(s).result == Synced
    ensures Assemble(Sync(s).rest, []).status == Filled
    ensures Assemble(Sync(s).rest, []).held == payload
    ensures Stream(Assemble(Sync(s).rest, []).rest) == tail
    ensures Blocking(Assemble(Sync(s).rest, []).rest)
  {
    BlockingSync(s);
    SyncConsumption(s);
    var sync := Sync(s);
    FrameLayout(Stream(s), payload, tail);
    assert sync.consumed == [START_BYTE_1, START_BYTE_2];
    assert sync.result == Synced;
    DropPrefix(Stream(s), sync.consumed, Stream(sync.rest));
    assert Stream(sync.rest) == payload + tail;
    BlockingDelivers(sync.rest, PACKET_SIZE - 2);
    AssembleFillsIffDelivered(sync.rest, []);
    AssembledBytesAreNextInStream(sync.rest, []);
    var assembly := Assemble(sync.rest, []);
    assert assembly.held == payload;
    BlockingAssemble(sync.rest, []);
    assert [] + Stream(sync.rest) == assembly.held + Stream(assembly.rest);
    CancelPrefix(payload, tail, Stream(assembly.rest));
  }

  /** With blocking, error-free reads a stream that begins with the start
      bytes and a full frame is decoded to that frame when the check
      accepts it, however the stream is cut into reads. */
  lemma FrameAtStart(s: seq<Response>, head: seq<byte>, verify: seq<byte> -> bool,
                     payload: seq<byte>, tail: seq<byte>)
    requires |head| == 2 && |payload| == PACKET_SIZE - 2
    requires Blocking(s)
    requires Stream(s) == [START_BYTE_1, START_BYTE_2] + (payload + tail)
    requires verify(head + payload)
    ensures Decode(s, head, verify).outcome == Decoded(ParseData(head + payload))
  {
    FrameAtStartAssembles(s, payload, tail);
    AcceptedFrameIsDecoded(s, head, verify);
  }

  // A sequence identity, kept apart so the proof using it stays small.
  lemma CancelPrefix(a: seq<byte>, x: seq<byte>, y: seq<byte>)
    requires [] + (a + x) == a + y
    ensures x == y
  {
    assert x == (a + x)[|a|..];
    assert y == (a + y)[|a|..];
  }

  /** Where the start bytes and the payload sit in a stream that begins
      with a frame. */
  lemma FrameLayout(st: seq<byte>, payload: seq<byte>, tail: seq<byte>)
    requires |payload| == PACKET_SIZE - 2
    requires st == [START_BYTE_1, START_BYTE_2] + (payload + tail)
    ensures |st| >= 2 && st[0] == START_BYTE_1 && st[..2] == [START_BYTE_1, START_BYTE_2]
    ensures st[2..] == payload + tail && |st[2..]| >= PACKET_SIZE - 2
    ensures [] + st[2..][..PACKET_SIZE - 2] == payload
  {
    assert st[2..] == payload + tail;
  }

  // A sequence identity, kept apart so the proof using it stays small.
  lemma DropPrefix(st: seq<byte>, taken: seq<byte>, left: seq<byte>)
    requires st == taken + left
    ensures left == st[|taken|..]
  {
  }

  /** Under blocking, error-free reads a leading byte other than 0x42 is dropped and
      decoding goes on with the next byte. */
  lemma NoiseByteSkipped(s: seq<Response>, head: seq<byte>, verify: seq<byte> -> bool)
    requires |head| == 2
    requires Blocking(s) && |Stream(s)| >= 2 && Stream(s)[0] != START_BYTE_1
    ensures Decode(s, head, verify) == Decode(Sync(s).rest, head, verify)
    ensures Blocking(Sync(s).rest)
    ensures Stream(Sync(s).rest) == Stream(s)[1..]
  {
    BlockingSync(s);
    SyncConsumption(s);
  }

  /** Under blocking, error-free reads a leading 0x42 followed by a byte
      other than 0x4D is dropped together with that byte, and decoding goes
      on after both. */
  lemma FailedPairSkipped(s: seq<Response>, head: seq<byte>, verify: seq<byte> -> bool)
    requires |head| == 2
    requires Blocking(s) && |Stream(s)| >= 2
    requires Stream(s)[0] == START_BYTE_1 && Stream(s)[1] != START_BYTE_2
    ensures Decode(s, head, verify) == Decode(Sync(s).rest, head, verify)
    ensures Blocking(Sync(s).rest)
    ensures Stream(Sync(s).rest) == Stream(s)[2..]
  {
    var st := Stream(s);
    assert st[..2] == [START_BYTE_1, st[1]];
    SecondByteNotRetested(s, st[1]);
    BlockingSync(s);
    RetryContinuesDecoding(s, head, verify);
  }

  /** Noise that the decoder skips in whole failed attempts: each attempt
      is a byte other than 0x42, or a 0x42 followed by a byte other than
      0x4D (0x42 itself included). */
  ghost predicate Skippable(noise: seq<byte>)
    decreases |noise|
  {
    noise == [] ||
    (noise[0] != START_BYTE_1 && Skippable(noise[1..])) ||
    (|noise| >= 2 && noise[0] == START_BYTE_1 && noise[1] != START_BYTE_2 && Skippable(noise[2..]))
  }

  /** Noise without any 0x42 is skippable, one byte per attempt. */
  lemma {:induction false} NoStartByteIsSkippable(noise: seq<byte>)
    requires START_BYTE_1 !in noise
    ensures Skippable(noise)
    decreases |noise|
  {
    if noise != [] {
      assert noise[0] in noise;
      NoStartByteIsSkippable(noise[1..]);
    }
  }

  /** `42 00` and `42 42` are skippable noise, but a lone trailing 0x42 is
      not: followed by a frame it makes the stream of
      `DoubledStartByteLosesFrame`. */
  lemma SkippableBoundary()
    ensures Skippable([START_BYTE_1, 0x00]) && Skippable([START_BYTE_1, START_BYTE_1])
    ensures !Skippable([START_BYTE_1])
  {
    var a: seq<byte> := [START_BYTE_1, 0x00];
    var b: seq<byte> := [START_BYTE_1, START_BYTE_1];
    assert a[2..] == [] && b[2..] == [];
  }

  /** With blocking, error-free reads, leading noise that splits into whole
      failed attempts, delivered in non-empty chunks of any size, does not
      hide the frame that follows it. */
  lemma {:induction false} FrameFoundAfterNoise(s: seq<Response>, head: seq<byte>, verify: seq<byte> -> bool,
                                              noise: seq<byte>, payload: seq<byte>, tail: seq<byte>)
    requires |head| == 2 && |payload| == PACKET_SIZE - 2
    requires Blocking(s)
    requires Stream(s) == noise + [START_BYTE_1, START_BYTE_2] + payload + tail
    requires Skippable(noise)
    requires verify(head + payload)
    ensures Decode(s, head, verify).outcome == Decoded(ParseData(head + payload))
    decreases |noise|
  {
    var start := [START_BYTE_1, START_BYTE_2];
    if noise == [] {
      Regroup3(start, payload, tail);
      FrameAtStart(s, head, verify, payload, tail);
    } else if noise[0] != START_BYTE_1 {
      var later := noise[1..] + start + payload + tail;
      assert Stream(s) == [noise[0]] + later by {
        Regroup([noise[0]], noise[1..], start, payload, tail);
        assert noise == [noise[0]] + noise[1..];
      }
      NoiseByteSkipped(s, head, verify);
      FrameFoundAfterNoise(Sync(s).rest, head, verify, noise[1..], payload, tail);
    } else {
      var later := noise[2..] + start + payload + tail;
      assert Stream(s) == noise[..2] + later by {
        Regroup(noise[..2], noise[2..], start, payload, tail);
        assert noise == noise[..2] + noise[2..];
      }
      DropPrefix(Stream(s), noise[..2], later);
      FailedPairSkipped(s, head, verify);
      FrameFoundAfterNoise(Sync(s).rest, head, verify, noise[2..], payload, tail);
    }
  }

  /** A frame with PM1.0 = 5, PM2.5 = 10 and PM10 = 20. Its last two bytes
      are the sum of the first thirty, which the bypassed check does not
      look at. */
  const EXAMPLE_FRAME: seq<byte> :=
    [0x42, 0x4D, 0x00, 0x1C, 0, 0, 0, 0, 0, 0, 0, 5, 0, 10, 0, 20,
     0, 0, 0, 0, 0, 0, 0, 0, 0, 0, 0, 0, 0, 0, 0x00, 0xCE]

  /** The example frame, sent in one piece, decodes to exactly its three
      values whatever `buffer[0..2]` held. */
  lemma ExampleFrame(head: seq<byte>)
    requires |head| == 2
    ensures Decode([Data(EXAMPLE_FRAME)], head, VerifyChecksum).outcome == Decoded(Reading(5, 10, 20))
  {
    var s := [Data(EXAMPLE_FRAME)];
    assert Stream(s) == EXAMPLE_FRAME by {
      assert Stream(s[1..]) == [];
    }
    assert Blocking(s) by {
      assert s[0].bytes == EXAMPLE_FRAME;
    }
    var payload := EXAMPLE_FRAME[2..];
    ExampleFrameLayout();
    FrameAtStart(s, head, VerifyChecksum, payload, []);
    StaleHeadIsIgnored(head, EXAMPLE_FRAME);
    ExampleFrameFields();
  }

  /** A frame that begins with the start bytes is the start bytes followed
      by its payload. */
  lemma SplitAtStartBytes(f: seq<byte>)
    requires |f| >= 2 && f[0] == START_BYTE_1 && f[1] == START_BYTE_2
    ensures f == [START_BYTE_1, START_BYTE_2] + (f[2..] + [])
  {
    assert f[2..] + [] == f[2..];
  }

  lemma ExampleFrameLayout()
    ensures |EXAMPLE_FRAME| == PACKET_SIZE
    ensures EXAMPLE_FRAME == [START_BYTE_1, START_BYTE_2] + (EXAMPLE_FRAME[2..] + [])
  {
    var f := EXAMPLE_FRAME;
    assert f[0] == START_BYTE_1 && f[1] == START_BYTE_2;
    SplitAtStartBytes(f);
  }

  lemma ExampleFrameFields()
    ensures ParseData(EXAMPLE_FRAME) == Reading(5, 10, 20)
  {
    var f := EXAMPLE_FRAME;
    assert f[10] == 0 && f[11] == 5;
    assert f[12] == 0 && f[13] == 10;
    assert f[14] == 0 && f[15] == 20;
  }

  /** The three values read from a frame depend on bytes 10 to 15 only. */
  lemma ParseReadsOnlyFieldBytes(f: seq<byte>, g: seq<byte>)
    requires |f| >= 16 && |g| >= 16
    requires forall i :: 10 <= i < 16 ==> f[i] == g[i]
    ensures ParseData(f) == ParseData(g)
  {
  }

  /** The two cells `buffer[0..2]`, which nothing writes, cannot change a
      reading: decoding the buffer gives what decoding the frame as it was
      sent gives. */
  lemma StaleHeadIsIgnored(head: seq<byte>, frame: seq<byte>)
    requires |head| == 2 && |frame| >= 16
    ensures ParseData(head + frame[2..]) == ParseData(frame)
  {
    var f := head + frame[2..];
    forall i | 10 <= i < 16
      ensures f[i] == frame[i]
    {
      assert f[i] == frame[2..][i - 2];
    }
    ParseReadsOnlyFieldBytes(f, frame);
  }
}
