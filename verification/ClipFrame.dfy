/** The record grammar of the clipboard socket and its reference reader: an exact
    HELLO header, then clipboard records, each a 32-byte header and its payload.
    How header bytes spell a header is a parameter here. */
module ClipFrame {
  type byte = x: int | 0 <= x < 256
  type u32 = x: int | 0 <= x < 0x1_0000_0000

  const MAGIC: u32 := 0x584D_5331
  const MSG_HELLO: u32 := 1
  const MSG_CLIPBOARD: u32 := 4
  const PROTOCOL_VERSION: u32 := 1
  const ITEM_MAX := 16 * 1024 * 1024
  const KIND_NONE: u32 := 0
  const MAX_KIND: u32 := 4
  const HEADER := 32

  datatype Msg = Msg(magic: u32, typ: u32, window: u32, length: u32, a: u32, b: u32, c: u32, d: u32)

  const HELLO := Msg(MAGIC, MSG_HELLO, PROTOCOL_VERSION, 0, 0, 0, 0, 0)

  /** One clipboard record: which representation, of which copy, and its bytes. */
  datatype Record = Record(kind: u32, gen: u32, data: seq<byte>)

  /** Reads the 32 bytes of a header. */
  type Decoder = seq<byte> -> Msg

  // ---- reading a stream -------------------------------------------------------------------

  /** What a receiver makes of a byte stream: the records it dispatches, whether
      it drops the peer, whether the handshake is done, and the unread rest. */
  datatype Parsed = Parsed(records: seq<Record>, violated: bool, handshaken: bool, rest: seq<byte>)

  /** A header that ends the connection as soon as it is complete. */
  predicate BadHeader(m: Msg, handshaken: bool) {
    || m.magic != MAGIC
    || (!handshaken && m != HELLO)
    || (handshaken && (m.typ != MSG_CLIPBOARD || m.window != 0 || m.length > ITEM_MAX))
  }

  /** A complete record that ends the connection when dispatched. */
  predicate BadRecord(m: Msg) {
    m.window != 0 || m.a > MAX_KIND || m.b == 0 || m.c != 0 || m.d != 0 || (m.a == KIND_NONE && m.length != 0)
  }

  /** The reference: read the whole stream front to back. */
  function Parse(dec: Decoder, stream: seq<byte>, handshaken: bool): Parsed
    decreases |stream|
  {
    if |stream| < HEADER then Parsed([], false, handshaken, stream)
    else
      var m := dec(stream[..HEADER]);
      if BadHeader(m, handshaken) then Parsed([], true, handshaken, [])
      else if !handshaken then Parse(dec, stream[HEADER..], true)
      else if |stream| < HEADER + m.length then Parsed([], false, handshaken, stream)
      else if BadRecord(m) then Parsed([], true, handshaken, [])
      else
        var p := Parse(dec, stream[HEADER + m.length..], handshaken);
        p.(records := [Record(m.a, m.b, stream[HEADER..HEADER + m.length])] + p.records)
  }

  function Prepend(records: seq<Record>, p: Parsed): Parsed {
    p.(records := records + p.records)
  }

  lemma PrependMore(r: Record, p: Parsed, q: Parsed)
    ensures q.(records := [r] + (p.records + q.records)) == Prepend([r] + p.records, q)
  {
    assert [r] + (p.records + q.records) == ([r] + p.records) + q.records;
  }

  /** After a complete prefix, parsing goes on where it left off. */
  lemma {:induction false} ParseOn(dec: Decoder, done: seq<byte>, hs: bool, more: seq<byte>)
    requires var p := Parse(dec, done, hs); !p.violated && p.rest == []
    ensures var p := Parse(dec, done, hs); Parse(dec, done + more, hs) == Prepend(p.records, Parse(dec, more, p.handshaken))
    decreases |done|
  {
    if |done| < HEADER {
      assert done == [] && done + more == more;
    } else {
      var m := dec(done[..HEADER]);
      assert (done + more)[..HEADER] == done[..HEADER];
      if !hs {
        assert (done + more)[HEADER..] == done[HEADER..] + more;
        ParseOn(dec, done[HEADER..], true, more);
      } else if |done| >= HEADER + m.length {
        var n := HEADER + m.length;
        assert (done + more)[n..] == done[n..] + more;
        assert (done + more)[HEADER..n] == done[HEADER..n];
        ParseOn(dec, done[n..], hs, more);
        var p := Parse(dec, done[n..], hs);
        PrependMore(Record(m.a, m.b, done[HEADER..n]), p, Parse(dec, more, p.handshaken));
      }
    }
  }

  /** Once the peer has been dropped, later bytes change nothing. */
  lemma {:induction false} ViolationFinal(dec: Decoder, bad: seq<byte>, hs: bool, more: seq<byte>)
    requires Parse(dec, bad, hs).violated
    ensures Parse(dec, bad + more, hs) == Parse(dec, bad, hs)
    decreases |bad|
  {
    var m := dec(bad[..HEADER]);
    assert (bad + more)[..HEADER] == bad[..HEADER];
    if BadHeader(m, hs) {
    } else if !hs {
      assert (bad + more)[HEADER..] == bad[HEADER..] + more;
      ViolationFinal(dec, bad[HEADER..], true, more);
    } else {
      var n := HEADER + m.length;
      if !BadRecord(m) {
        assert (bad + more)[n..] == bad[n..] + more;
        assert (bad + more)[HEADER..n] == bad[HEADER..n];
        ViolationFinal(dec, bad[n..], hs, more);
      }
    }
  }

  /** Reading on only adds records. */
  lemma {:induction false} ParsePrefix(dec: Decoder, part: seq<byte>, hs: bool, more: seq<byte>)
    ensures Parse(dec, part, hs).records <= Parse(dec, part + more, hs).records
    decreases |part|
  {
    if |part| >= HEADER {
      var m := dec(part[..HEADER]);
      assert (part + more)[..HEADER] == part[..HEADER];
      if !BadHeader(m, hs) {
        if !hs {
          assert (part + more)[HEADER..] == part[HEADER..] + more;
          ParsePrefix(dec, part[HEADER..], true, more);
        } else if |part| >= HEADER + m.length && !BadRecord(m) {
          var n := HEADER + m.length;
          assert (part + more)[n..] == part[n..] + more;
          assert (part + more)[HEADER..n] == part[HEADER..n];
          ParsePrefix(dec, part[n..], hs, more);
        }
      }
    }
  }

  /** A part of a stream that is all records is no violation and gives the first ones. */
  lemma PartOfStream(dec: Decoder, s: seq<byte>, rs: seq<Record>, k: nat)
    requires Parse(dec, s, false) == Parsed(rs, false, true, []) && k <= |s|
    ensures var p := Parse(dec, s[..k], false); !p.violated && p.records <= rs
  {
    assert s[..k] + s[k..] == s;
    ParsePrefix(dec, s[..k], false, s[k..]);
    if Parse(dec, s[..k], false).violated {
      ViolationFinal(dec, s[..k], false, s[k..]);
    }
  }

  /** One encoded record, read by any decoder that understands its header. */
  lemma OneRecord(dec: Decoder, header: seq<byte>, m: Msg, data: seq<byte>)
    requires |header| == HEADER && dec(header) == m
    requires !BadHeader(m, true) && !BadRecord(m) && |data| == m.length
    ensures Parse(dec, header + data, true) == Parsed([Record(m.a, m.b, data)], false, true, [])
  {
    var s := header + data;
    assert s[..HEADER] == header && s[HEADER..HEADER + m.length] == data;
    assert s[HEADER + m.length..] == [];
    assert [Record(m.a, m.b, data)] + [] == [Record(m.a, m.b, data)];
  }

  lemma HelloThen(dec: Decoder, header: seq<byte>, more: seq<byte>)
    requires |header| == HEADER && dec(header) == HELLO
    ensures Parse(dec, header + more, false) == Parse(dec, more, true)
  {
    var s := header + more;
    assert s[..HEADER] == header && s[HEADER..] == more;
  }

  // ---- what a receiver has made of the stream so far ------------------------------------------

  /** The handshake arrived behind a complete prefix. */
  lemma HelloDone(dec: Decoder, done: seq<byte>, header: seq<byte>, log: seq<Record>)
    requires Parse(dec, done, false) == Parsed(log, false, false, []) && |header| == HEADER && dec(header) == HELLO
    ensures Parse(dec, done + header, false) == Parsed(log, false, true, [])
  {
    ParseOn(dec, done, false, header);
    HelloThen(dec, header, []);
    assert header + [] == header && log + [] == log;
  }

  /** A bad header arrived: everything so far is dispatched, the peer is dropped. */
  lemma HeaderBad(dec: Decoder, done: seq<byte>, header: seq<byte>, log: seq<Record>, hs: bool)
    requires Parse(dec, done, false) == Parsed(log, false, hs, []) && |header| == HEADER && BadHeader(dec(header), hs)
    ensures Parse(dec, done + header, false).violated && Parse(dec, done + header, false).records == log
  {
    ParseOn(dec, done, false, header);
    assert header[..HEADER] == header && log + [] == log;
  }

  lemma RecordDone(dec: Decoder, done: seq<byte>, header: seq<byte>, data: seq<byte>, log: seq<Record>)
    requires Parse(dec, done, false) == Parsed(log, false, true, []) && |header| == HEADER
    requires !BadHeader(dec(header), true) && !BadRecord(dec(header)) && |data| == dec(header).length
    ensures Parse(dec, done + (header + data), false) ==
            Parsed(log + [Record(dec(header).a, dec(header).b, data)], false, true, [])
  {
    ParseOn(dec, done, false, header + data);
    OneRecord(dec, header, dec(header), data);
  }

  lemma RecordBad(dec: Decoder, done: seq<byte>, header: seq<byte>, data: seq<byte>, log: seq<Record>)
    requires Parse(dec, done, false) == Parsed(log, false, true, []) && |header| == HEADER
    requires !BadHeader(dec(header), true) && BadRecord(dec(header)) && |data| == dec(header).length
    ensures Parse(dec, done + (header + data), false).violated
    ensures Parse(dec, done + (header + data), false).records == log
  {
    var s := header + data;
    ParseOn(dec, done, false, s);
    assert s[..HEADER] == header && log + [] == log;
  }

  /** An unfinished header or payload dispatches nothing more. */
  lemma Unfinished(dec: Decoder, done: seq<byte>, part: seq<byte>, log: seq<Record>, hs: bool)
    requires Parse(dec, done, false) == Parsed(log, false, hs, [])
    requires |part| < HEADER || (hs && !BadHeader(dec(part[..HEADER]), true) && |part| < HEADER + dec(part[..HEADER]).length)
    ensures Parse(dec, done + part, false) == Parsed(log, false, hs, part)
  {
    ParseOn(dec, done, false, part);
    assert log + [] == log;
  }

  // ---- writing a stream -------------------------------------------------------------------

  type Encoder = Record -> seq<byte>

  /** The bytes of a sequence of whole records. */
  function EncodeAll(enc: Encoder, rs: seq<Record>): seq<byte> {
    if rs == [] then [] else EncodeAll(enc, rs[..|rs| - 1]) + enc(rs[|rs| - 1])
  }

  lemma EncodeSnoc(enc: Encoder, rs: seq<Record>, r: Record)
    ensures EncodeAll(enc, rs + [r]) == EncodeAll(enc, rs) + enc(r)
  {
    assert (rs + [r])[..|rs|] == rs;
  }

  ghost predicate ReadsBack(dec: Decoder, enc: Encoder, r: Record) {
    Parse(dec, enc(r), true) == Parsed([r], false, true, [])
  }

  /** If each record reads back alone, any sequence of them reads back. */
  lemma {:induction false} RecordsReadBack(dec: Decoder, enc: Encoder, rs: seq<Record>)
    requires forall r :: r in rs ==> ReadsBack(dec, enc, r)
    ensures Parse(dec, EncodeAll(enc, rs), true) == Parsed(rs, false, true, [])
    decreases |rs|
  {
    if rs != [] {
      var n := |rs| - 1;
      RecordsReadBack(dec, enc, rs[..n]);
      assert ReadsBack(dec, enc, rs[n]);
      AppendReadBack(dec, EncodeAll(enc, rs[..n]), rs[..n], enc(rs[n]), rs[n]);
      assert rs == rs[..n] + [rs[n]];
    }
  }

  lemma AppendReadBack(dec: Decoder, done: seq<byte>, rs: seq<Record>, bytes: seq<byte>, r: Record)
    requires Parse(dec, done, true) == Parsed(rs, false, true, [])
    requires Parse(dec, bytes, true) == Parsed([r], false, true, [])
    ensures Parse(dec, done + bytes, true) == Parsed(rs + [r], false, true, [])
  {
    ParseOn(dec, done, true, bytes);
  }
}
