/** The bridge's inbound side: one client's resumable framing over reads of any
    size.  Whatever the chunking, the records dispatched and the decision to drop
    the client are those of reading the whole stream at once. */
module ClipReceive {
  import opened ClipFrame

  class Receiver {
    const dec: Decoder
    const header: array<byte>
    var headerHave: nat
    var msg: Msg
    var payload: array<byte>
    var payloadHave: nat
    var handshaken: bool
    var dropped: bool
    var log: seq<Record>
    ghost var done: seq<byte>      // the bytes of everything handled completely
    ghost var received: seq<byte>  // all bytes read from the socket

    ghost predicate Shape()
      reads this, header, payload
    {
      && header.Length == HEADER && headerHave <= HEADER && payloadHave <= payload.Length
      && header != payload
      && (headerHave < HEADER ==> payloadHave == 0)
      && (headerHave == HEADER ==>
            handshaken && msg == dec(header[..]) && !BadHeader(msg, true) && payload.Length == msg.length)
    }

    /** The bytes of the record being read. */
    ghost function Part(): seq<byte>
      reads this, header, payload
      requires Shape()
    {
      header[..headerHave] + payload[..payloadHave]
    }

    /** A live client: everything handled, plus one unfinished record. */
    ghost predicate Live()
      reads this, header, payload
    {
      && Shape() && !dropped
      && Parse(dec, done, false) == Parsed(log, false, handshaken, [])
      && received == done + Part()
    }

    ghost predicate Valid()
      reads this, header, payload
    {
      if dropped then
        Parse(dec, received, false).violated && Parse(dec, received, false).records == log
      else
        Live() && (headerHave < HEADER || payloadHave < payload.Length)
    }

    constructor (dec: Decoder)
      ensures Valid() && !dropped && received == [] && log == [] && this.dec == dec
      ensures fresh(header) && fresh(payload)
    {
      this.dec := dec;
      header := new byte[HEADER];
      payload := new byte[0];
      headerHave, payloadHave, msg := 0, 0, HELLO;
      handshaken, dropped, log := false, false, [];
      done, received := [], [];
    }

    /** What the log says, in terms of the whole stream. */
    lemma LogIsParse()
      requires Valid()
      ensures log == Parse(dec, received, false).records
      ensures dropped <==> Parse(dec, received, false).violated
    {
      if !dropped {
        assert headerHave == HEADER ==> Part()[..HEADER] == header[..];
        Unfinished(dec, done, Part(), log, handshaken);
      }
    }

    /** One read into the header buffer. */
    method ReadHeader(chunk: seq<byte>)
      requires Live() && headerHave < HEADER && 0 < |chunk| <= HEADER - headerHave
      requires headerHave + |chunk| < HEADER
      modifies this`headerHave, this`received, header
      ensures Live() && headerHave == old(headerHave) + |chunk|
      ensures received == old(received) + chunk
    {
      ghost var was := header[..headerHave];
      forall k | 0 <= k < |chunk| {
        header[headerHave + k] := chunk[k];
      }
      headerHave := headerHave + |chunk|;
      received := received + chunk;
      assert header[..headerHave] == was + chunk;
      assert payload[..0] == [];
    }

    /** The read that completes the header: reject it, finish the handshake, or
        make room for the payload. */
    method FinishHeader(chunk: seq<byte>)
      requires Live() && headerHave < HEADER && |chunk| == HEADER - headerHave
      modifies this, header
      ensures received == old(received) + chunk
      ensures if dropped then Valid() else Live()
      ensures payload == old(payload) || fresh(payload)
    {
      FillHeader(chunk);
      JudgeHeader();
    }

    method FillHeader(chunk: seq<byte>)
      requires Live() && headerHave < HEADER && |chunk| == HEADER - headerHave
      modifies this`received, this`msg, header
      ensures received == old(received) + chunk && received == done + header[..] && msg == dec(header[..])
    {
      ghost var part := Part();
      forall k | 0 <= k < |chunk| {
        header[headerHave + k] := chunk[k];
      }
      received := received + chunk;
      assert header[..] == part + chunk by {
        assert payload[..0] == [];
      }
      msg := dec(header[..]);
    }

    /** The header is complete; what was handled before it is `done`. */
    method JudgeHeader()
      requires header.Length == HEADER && header != payload && headerHave < HEADER && !dropped && msg == dec(header[..])
      requires Parse(dec, done, false) == Parsed(log, false, handshaken, []) && received == done + header[..]
      modifies this
      ensures received == old(received)
      ensures if dropped then Valid() else Live()
      ensures payload == old(payload) || fresh(payload)
    {
      if BadHeader(msg, handshaken) {
        HeaderBad(dec, done, header[..], log, handshaken);
        dropped := true;
        return;
      }
      if !handshaken {
        HelloDone(dec, done, header[..], log);
        done := done + header[..];
        handshaken := true;
        headerHave, payloadHave, payload := 0, 0, new byte[0];
        assert Part() == [];
        return;
      }
      headerHave, payloadHave, payload := HEADER, 0, new byte[msg.length];
      assert Part() == header[..];
    }

    /** One read into the payload buffer. */
    method ReadPayload(chunk: seq<byte>)
      requires Live() && headerHave == HEADER && 0 < |chunk| <= payload.Length - payloadHave
      modifies this`payloadHave, this`received, payload
      ensures Live() && headerHave == HEADER && payloadHave == old(payloadHave) + |chunk|
      ensures received == old(received) + chunk
    {
      ghost var was, h := payload[..payloadHave], header[..];
      forall k | 0 <= k < |chunk| {
        payload[payloadHave + k] := chunk[k];
      }
      payloadHave := payloadHave + |chunk|;
      received := received + chunk;
      assert payload[..payloadHave] == was + chunk && header[..] == h;
    }

    /** `rx_dispatch`: a complete record is checked, logged and forgotten. */
    method FinishRecord()
      requires Live() && headerHave == HEADER && payloadHave == payload.Length
      modifies this
      ensures received == old(received)
      ensures if dropped then Valid() else Live() && headerHave == 0
      ensures payload == old(payload) || fresh(payload)
    {
      ghost var data := payload[..];
      assert header[..headerHave] == header[..] && payload[..payloadHave] == data;
      if BadRecord(msg) {
        RecordBad(dec, done, header[..], data, log);
        dropped := true;
        return;
      }
      RecordDone(dec, done, header[..], data, log);
      done := received;
      log := log + [Record(msg.a, msg.b, payload[..])];
      headerHave, payloadHave, payload := 0, 0, new byte[0];
      assert Part() == [];
    }

    /** Everything the socket has right now, in reads of arbitrary sizes. */
    method Dispatch(input: seq<byte>)
      requires Valid() && !dropped
      modifies this, header, payload
      ensures Valid()
      ensures received == old(received) + input
      ensures payload == old(payload) || fresh(payload)
    {
      var pos := 0;
      assert input[..0] == [];
      while pos < |input| && !dropped
        invariant 0 <= pos <= |input|
        invariant Valid()
        invariant received == old(received) + input[..pos]
        invariant payload == old(payload) || fresh(payload)
        decreases |input| - pos
      {
        var n := Step(input, pos);
        pos := pos + n;
      }
      if dropped {
        ViolationFinal(dec, received, false, input[pos..]);
        received := received + input[pos..];
        assert input == input[..pos] + input[pos..];
      } else {
        assert input[..pos] == input;
      }
    }

    /** One read and what follows from it. */
    method Step(input: seq<byte>, pos: nat) returns (n: nat)
      requires Valid() && !dropped && pos < |input|
      modifies this, header, payload
      ensures Valid()
      ensures 0 < n <= |input| - pos && received == old(received) + input[pos..pos + n]
      ensures payload == old(payload) || fresh(payload)
    {
      if headerHave < HEADER {
        n :| 0 < n <= HEADER - headerHave && n <= |input| - pos;
        if headerHave + n < HEADER {
          ReadHeader(input[pos..pos + n]);
          return;
        }
        FinishHeader(input[pos..pos + n]);
      } else {
        n :| 0 < n <= payload.Length - payloadHave && n <= |input| - pos;
        ReadPayload(input[pos..pos + n]);
      }
      if !dropped && headerHave == HEADER && payloadHave == payload.Length {
        FinishRecord();
      }
    }
  }

  function Concat(chunks: seq<seq<byte>>): seq<byte> {
    if chunks == [] then [] else Concat(chunks[..|chunks| - 1]) + chunks[|chunks| - 1]
  }

  /** A connection served over any number of wakeups, each with any bytes: the
      outcome depends on the bytes alone, not on how they arrived. */
  method Serve(dec: Decoder, chunks: seq<seq<byte>>) returns (log: seq<Record>, dropped: bool)
    ensures log == Parse(dec, Concat(chunks), false).records
    ensures dropped <==> Parse(dec, Concat(chunks), false).violated
  {
    var r := new Receiver(dec);
    var i := 0;
    while i < |chunks| && !r.dropped
      invariant 0 <= i <= |chunks|
      invariant r.Valid() && r.dec == dec && fresh(r) && fresh(r.header) && fresh(r.payload)
      invariant r.received == Concat(chunks[..i])
    {
      r.Dispatch(chunks[i]);
      assert chunks[..i + 1][..i] == chunks[..i];
      i := i + 1;
    }
    r.LogIsParse();
    log, dropped := r.log, r.dropped;
    RestIgnored(dec, chunks, i);
  }

  lemma {:induction false} RestIgnored(dec: Decoder, chunks: seq<seq<byte>>, i: nat)
    requires i <= |chunks|
    requires i == |chunks| || Parse(dec, Concat(chunks[..i]), false).violated
    ensures Parse(dec, Concat(chunks[..i]), false) == Parse(dec, Concat(chunks), false)
    decreases |chunks| - i
  {
    if i == |chunks| {
      assert chunks[..i] == chunks;
    } else {
      assert chunks[..i + 1][..i] == chunks[..i];
      ViolationFinal(dec, Concat(chunks[..i]), false, chunks[i]);
      RestIgnored(dec, chunks, i + 1);
    }
  }
}
