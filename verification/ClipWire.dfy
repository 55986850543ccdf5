/** The byte layout of the clipboard socket: little-endian headers, and the round
    trip of everything the bridge sends. */
module ClipWire {
  import opened ClipFrame

  function Word(w: u32): (bs: seq<byte>)
    ensures |bs| == 4
  {
    [w % 256, w / 256 % 256, w / 65536 % 256, w / 16777216]
  }

  function ReadWord(b0: byte, b1: byte, b2: byte, b3: byte): u32 {
    b0 + 256 * b1 + 65536 * b2 + 16777216 * b3
  }

  lemma WordRoundTrip(w: u32)
    ensures var bs := Word(w); ReadWord(bs[0], bs[1], bs[2], bs[3]) == w
  {
    var a, b, c := w / 256, w / 65536, w / 16777216;
    assert b == a / 256 && c == b / 256;
    assert w == 256 * a + w % 256 && a == 256 * b + a % 256 && b == 256 * c + b % 256;
  }

  function EncodeHeader(m: Msg): (bs: seq<byte>)
    ensures |bs| == HEADER
  {
    Word(m.magic) + Word(m.typ) + Word(m.window) + Word(m.length) + Word(m.a) + Word(m.b) + Word(m.c) + Word(m.d)
  }

  function WordAt(bs: seq<byte>, k: nat): u32
    requires 4 * k + 4 <= |bs|
  {
    ReadWord(bs[4 * k], bs[4 * k + 1], bs[4 * k + 2], bs[4 * k + 3])
  }

  function DecodeHeader(bs: seq<byte>): Msg {
    if |bs| != HEADER then HELLO else
    Msg(WordAt(bs, 0), WordAt(bs, 1), WordAt(bs, 2), WordAt(bs, 3),
        WordAt(bs, 4), WordAt(bs, 5), WordAt(bs, 6), WordAt(bs, 7))
  }

  /** What is sent as a header is read back as that header. */
  lemma HeaderRoundTrip(m: Msg)
    ensures DecodeHeader(EncodeHeader(m)) == m
  {
    var bs := EncodeHeader(m);
    assert bs[0..4] == Word(m.magic);
    assert bs[4..8] == Word(m.typ);
    assert bs[8..12] == Word(m.window);
    assert bs[12..16] == Word(m.length);
    assert bs[16..20] == Word(m.a);
    assert bs[20..24] == Word(m.b);
    assert bs[24..28] == Word(m.c);
    assert bs[28..32] == Word(m.d);
    WordRoundTrip(m.magic);
    WordRoundTrip(m.typ);
    WordRoundTrip(m.window);
    WordRoundTrip(m.length);
    WordRoundTrip(m.a);
    WordRoundTrip(m.b);
    WordRoundTrip(m.c);
    WordRoundTrip(m.d);
  }

  /** The length field is the low 32 bits of the payload length. */
  function RecordHeader(r: Record): Msg {
    Msg(MAGIC, MSG_CLIPBOARD, 0, |r.data| % 0x1_0000_0000, r.kind, r.gen, 0, 0)
  }

  function EncodeRecord(r: Record): seq<byte> {
    EncodeHeader(RecordHeader(r)) + r.data
  }

  /** A record a receiver accepts. */
  predicate Acceptable(r: Record) {
    |r.data| <= ITEM_MAX && r.kind <= MAX_KIND && r.gen != 0 && (r.kind == KIND_NONE ==> r.data == [])
  }

  /** A record that is sent is the record that is read. */
  lemma RecordRoundTrip(r: Record)
    requires Acceptable(r)
    ensures Parse(DecodeHeader, EncodeRecord(r), true) == Parsed([r], false, true, [])
  {
    HeadersReadBack();
    RecordReadsBack(DecodeHeader, EncodeHeader, r);
  }

  ghost predicate Inverse(dec: Decoder, enc: Msg -> seq<byte>) {
    forall m :: |enc(m)| == HEADER && dec(enc(m)) == m
  }

  lemma HeadersReadBack()
    ensures Inverse(DecodeHeader, EncodeHeader)
  {
    forall m ensures |EncodeHeader(m)| == HEADER && DecodeHeader(EncodeHeader(m)) == m {
      HeaderRoundTrip(m);
    }
  }

  lemma RecordReadsBack(dec: Decoder, enc: Msg -> seq<byte>, r: Record)
    requires Inverse(dec, enc) && Acceptable(r)
    ensures Parse(dec, enc(RecordHeader(r)) + r.data, true) == Parsed([r], false, true, [])
  {
    OneRecord(dec, enc(RecordHeader(r)), RecordHeader(r), r.data);
  }

  /** The whole outbound stream, HELLO and records, as the host reads it. */
  lemma StreamRoundTrip(rs: seq<Record>)
    requires forall r :: r in rs ==> Acceptable(r)
    ensures Parse(DecodeHeader, EncodeHeader(HELLO) + EncodeAll(EncodeRecord, rs), false) == Parsed(rs, false, true, [])
  {
    HeaderRoundTrip(HELLO);
    HelloThen(DecodeHeader, EncodeHeader(HELLO), EncodeAll(EncodeRecord, rs));
    forall r | r in rs ensures ReadsBack(DecodeHeader, EncodeRecord, r) {
      RecordRoundTrip(r);
    }
    RecordsReadBack(DecodeHeader, EncodeRecord, rs);
  }

  /** The bytes of a HELLO and records. */
  function StreamOf(rs: seq<Record>): seq<byte> {
    EncodeHeader(HELLO) + EncodeAll(EncodeRecord, rs)
  }

  /** Reading any part of the stream is no violation and gives the first records. */
  lemma PartReads(rs: seq<Record>, k: nat)
    requires (forall r :: r in rs ==> Acceptable(r)) && k <= |StreamOf(rs)|
    ensures var p := Parse(DecodeHeader, StreamOf(rs)[..k], false); !p.violated && p.records <= rs
  {
    StreamRoundTrip(rs);
    PartOfStream(DecodeHeader, StreamOf(rs), rs, k);
  }

  lemma StreamLonger(rs: seq<Record>, r: Record)
    ensures StreamOf(rs + [r]) == StreamOf(rs) + EncodeRecord(r)
    ensures |StreamOf(rs + [r])| == |StreamOf(rs)| + HEADER + |r.data|
  {
    EncodeSnoc(EncodeRecord, rs, r);
  }

  // ---- only what is sent is read --------------------------------------------------------------

  lemma BytesRoundTrip(b0: byte, b1: byte, b2: byte, b3: byte)
    ensures Word(ReadWord(b0, b1, b2, b3)) == [b0, b1, b2, b3]
  {
    var h2 := b2 + 256 * b3;
    var h1 := b1 + 256 * h2;
    var w := b0 + 256 * h1;
    assert w == ReadWord(b0, b1, b2, b3);
    assert w % 256 == b0 && w / 256 == h1;
    assert h1 % 256 == b1 && h1 / 256 == h2 && w / 65536 == h2;
    assert h2 % 256 == b2 && h2 / 256 == b3 && w / 16777216 == b3;
  }

  lemma WordOf(bs: seq<byte>, k: nat)
    requires 4 * k + 4 <= |bs|
    ensures Word(WordAt(bs, k)) == bs[4 * k..4 * k + 4]
  {
    BytesRoundTrip(bs[4 * k], bs[4 * k + 1], bs[4 * k + 2], bs[4 * k + 3]);
  }

  /** No two headers are read alike. */
  lemma HeaderBytes(bs: seq<byte>)
    requires |bs| == HEADER
    ensures EncodeHeader(DecodeHeader(bs)) == bs
  {
    WordOf(bs, 0);
    WordOf(bs, 1);
    WordOf(bs, 2);
    WordOf(bs, 3);
    WordOf(bs, 4);
    WordOf(bs, 5);
    WordOf(bs, 6);
    WordOf(bs, 7);
    assert bs == bs[0..4] + bs[4..8] + bs[8..12] + bs[12..16] + bs[16..20] + bs[20..24] + bs[24..28] + bs[28..32];
  }

  lemma {:induction false} EncodeCons(enc: Encoder, r: Record, rs: seq<Record>)
    ensures EncodeAll(enc, [r] + rs) == enc(r) + EncodeAll(enc, rs)
  {
    if rs == [] {
      assert [r] + rs == [r] && [r][..0] == [];
    } else {
      var n := |rs| - 1;
      EncodeCons(enc, r, rs[..n]);
      assert ([r] + rs)[..|rs|] == [r] + rs[..n];
      assert enc(r) + (EncodeAll(enc, rs[..n]) + enc(rs[n])) == enc(r) + EncodeAll(enc, rs[..n]) + enc(rs[n]);
    }
  }

  /** A header that passes every check is that of the record it brings. */
  lemma PassedHeader(m: Msg, data: seq<byte>)
    requires !BadHeader(m, true) && !BadRecord(m) && |data| == m.length
    ensures m == RecordHeader(Record(m.a, m.b, data)) && Acceptable(Record(m.a, m.b, data))
  {
  }

  /** `enc` writes every record as the bytes that `dec` reads as it. */
  ghost predicate Spells(dec: Decoder, enc: Encoder) {
    forall bs, data {:trigger dec(bs), enc(Record(dec(bs).a, dec(bs).b, data))} ::
      |bs| == HEADER && !BadHeader(dec(bs), true) && !BadRecord(dec(bs)) && |data| == dec(bs).length ==>
        var r := Record(dec(bs).a, dec(bs).b, data); enc(r) == bs + data && Acceptable(r)
  }

  lemma RecordsSpelled()
    ensures Spells(DecodeHeader, EncodeRecord)
  {
    forall bs, data | |bs| == HEADER && !BadHeader(DecodeHeader(bs), true) && !BadRecord(DecodeHeader(bs))
                      && |data| == DecodeHeader(bs).length
      ensures var r := Record(DecodeHeader(bs).a, DecodeHeader(bs).b, data); EncodeRecord(r) == bs + data && Acceptable(r)
    {
      PassedHeader(DecodeHeader(bs), data);
      HeaderBytes(bs);
    }
  }

  /** The first record of a stream and the rest of it. */
  lemma FirstRecord(dec: Decoder, s: seq<byte>)
    requires |s| >= HEADER && !Parse(dec, s, true).violated && |s| >= HEADER + dec(s[..HEADER]).length
    ensures var m := dec(s[..HEADER]);
            && !BadHeader(m, true) && !BadRecord(m)
            && var q := Parse(dec, s[HEADER + m.length..], true);
               Parse(dec, s, true) ==
               q.(records := [Record(m.a, m.b, s[HEADER..HEADER + m.length])] + q.records)
  {
  }

  lemma RecordsJoined(enc: Encoder, r: Record, rs: seq<Record>, head: seq<byte>, data: seq<byte>, more: seq<byte>,
                      rest: seq<byte>)
    requires enc(r) == head + data && more == EncodeAll(enc, rs) + rest
    ensures head + data + more == EncodeAll(enc, [r] + rs) + rest
  {
    EncodeCons(enc, r, rs);
    Rejoin(enc(r), EncodeAll(enc, rs), rest);
  }

  lemma ThreeParts(s: seq<byte>, i: nat, j: nat)
    requires i <= j <= |s|
    ensures s == s[..i] + s[i..j] + s[j..]
  {
  }

  lemma {:induction false} RecordsRead(dec: Decoder, enc: Encoder, s: seq<byte>)
    requires Spells(dec, enc) && !Parse(dec, s, true).violated
    ensures var p := Parse(dec, s, true);
            p.handshaken && s == EncodeAll(enc, p.records) + p.rest && forall r :: r in p.records ==> Acceptable(r)
    decreases |s|
  {
    if |s| >= HEADER && |s| >= HEADER + dec(s[..HEADER]).length {
      var m := dec(s[..HEADER]);
      var n := HEADER + m.length;
      var r := Record(m.a, m.b, s[HEADER..n]);
      FirstRecord(dec, s);
      RecordsRead(dec, enc, s[n..]);
      RecordIs(dec, enc, s[..HEADER], s[HEADER..n]);
      var q := Parse(dec, s[n..], true);
      RecordsJoined(enc, r, q.records, s[..HEADER], s[HEADER..n], s[n..], q.rest);
      ThreeParts(s, HEADER, n);
    }
  }

  lemma RecordIs(dec: Decoder, enc: Encoder, bs: seq<byte>, data: seq<byte>)
    requires Spells(dec, enc) && |bs| == HEADER && !BadHeader(dec(bs), true) && !BadRecord(dec(bs))
    requires |data| == dec(bs).length
    ensures var r := Record(dec(bs).a, dec(bs).b, data); enc(r) == bs + data && Acceptable(r)
  {
    var r := Record(dec(bs).a, dec(bs).b, data);
    assert enc(r) == enc(r);
  }

  lemma Rejoin(a: seq<byte>, b: seq<byte>, c: seq<byte>)
    ensures a + (b + c) == a + b + c
  {
  }

  /** Only these bytes are read as a HELLO. */
  ghost predicate OnlyHello(dec: Decoder, hello: seq<byte>) {
    forall bs :: |bs| == HEADER && dec(bs) == HELLO ==> bs == hello
  }

  lemma HelloSpelled()
    ensures OnlyHello(DecodeHeader, EncodeHeader(HELLO))
  {
    forall bs | |bs| == HEADER && DecodeHeader(bs) == HELLO ensures bs == EncodeHeader(HELLO) {
      HeaderBytes(bs);
    }
  }

  lemma NotHello(dec: Decoder, h: seq<byte>, rest: seq<byte>)
    requires |h| == HEADER && dec(h) != HELLO
    ensures Parse(dec, h + rest, false).violated
  {
    assert (h + rest)[..HEADER] == h;
  }

  lemma HelloThenRecords(dec: Decoder, enc: Encoder, hello: seq<byte>, h: seq<byte>, rest: seq<byte>)
    requires Spells(dec, enc) && OnlyHello(dec, hello) && |h| == HEADER && !Parse(dec, h + rest, false).violated
    ensures var p := Parse(dec, h + rest, false);
            p.handshaken && h + rest == hello + EncodeAll(enc, p.records) + p.rest
            && forall r :: r in p.records ==> Acceptable(r)
  {
    if dec(h) != HELLO {
      NotHello(dec, h, rest);
      assert false;
    }
    HelloThen(dec, h, rest);
    RecordsRead(dec, enc, rest);
    var p := Parse(dec, rest, true);
    Rejoin(hello, EncodeAll(enc, p.records), p.rest);
  }

  lemma HelloRead(dec: Decoder, enc: Encoder, hello: seq<byte>, s: seq<byte>)
    requires Spells(dec, enc) && OnlyHello(dec, hello) && !Parse(dec, s, false).violated
    ensures var p := Parse(dec, s, false);
            if p.handshaken
            then s == hello + EncodeAll(enc, p.records) + p.rest && forall r :: r in p.records ==> Acceptable(r)
            else p.records == [] && p.rest == s && |s| < HEADER
  {
    if |s| >= HEADER {
      var h, rest := s[..HEADER], s[HEADER..];
      assert h + rest == s;
      HelloThenRecords(dec, enc, hello, h, rest);
    }
  }

  /** A stream that is read without a violation is a HELLO, the encoding of the records
      it was read as, all of them acceptable, and the unread rest: nothing else passes. */
  lemma OnlyStreamsRead(s: seq<byte>)
    requires !Parse(DecodeHeader, s, false).violated
    ensures var p := Parse(DecodeHeader, s, false);
            if p.handshaken then s == StreamOf(p.records) + p.rest && forall r :: r in p.records ==> Acceptable(r)
            else p.records == [] && p.rest == s && |s| < HEADER
  {
    RecordsSpelled();
    HelloSpelled();
    HelloRead(DecodeHeader, EncodeRecord, EncodeHeader(HELLO), s);
  }

  /** A record that no receiver accepts is a violation when it arrives. */
  lemma RecordRefused(r: Record)
    requires !Acceptable(r) && |r.data| < 0x1_0000_0000
    ensures Parse(DecodeHeader, EncodeRecord(r), true).violated && Parse(DecodeHeader, EncodeRecord(r), true).records == []
  {
    HeaderRoundTrip(RecordHeader(r));
    Refused(DecodeHeader, EncodeHeader(RecordHeader(r)), r);
  }

  lemma Refused(dec: Decoder, header: seq<byte>, r: Record)
    requires !Acceptable(r) && |r.data| < 0x1_0000_0000 && |header| == HEADER && dec(header) == RecordHeader(r)
    ensures Parse(dec, header + r.data, true).violated && Parse(dec, header + r.data, true).records == []
  {
    var s, m := header + r.data, RecordHeader(r);
    assert s[..HEADER] == header && |s| == HEADER + m.length;
    assert m.length == |r.data| && m.window == 0 && m.typ == MSG_CLIPBOARD && m.magic == MAGIC;
    if m.length <= ITEM_MAX {
      assert !BadHeader(m, true) && BadRecord(m);
    } else {
      assert BadHeader(m, true);
    }
  }
}
