/** The bridge's outbound side: one client's contiguous transmit queue, consumed
    at the head, compacted and grown in place, bounded by the backlog limit. */
module ClipSend {
  import opened ClipFrame

  const BACKLOG_MAX := 64 * 1024 * 1024
  const FIRST_CAPACITY := 4096

  /** What one `write` did. */
  datatype WriteResult = Wrote(n: nat) | Again | Interrupted | Failed

  /** How many of `pending` bytes go out, and whether the client survives, when the
      socket answers a flush with these results. */
  function Drain(pending: nat, results: seq<WriteResult>): (r: (nat, bool))
    ensures r.0 <= pending
  {
    if pending == 0 || results == [] then (0, true)
    else
      match results[0]
      case Wrote(n) =>
        if n == 0 then (0, false)
        else
          var taken := if n < pending then n else pending;
          var rest := Drain(pending - taken, results[1..]);
          (taken + rest.0, rest.1)
      case Again => (0, true)
      case Interrupted => Drain(pending, results[1..])
      case Failed => (0, false)
  }

  class TxQueue {
    var tx: array<byte>
    var len: nat
    var off: nat
    ghost var written: seq<byte>  // bytes the socket took
    ghost var queued: seq<byte>   // bytes ever queued

    ghost predicate Valid()
      reads this, tx
    {
      && off <= len <= tx.Length
      && len - off <= BACKLOG_MAX
      && written + Pending() == queued
    }

    /** The backlog: queued but not yet written. */
    ghost function Pending(): seq<byte>
      reads this, tx
      requires off <= len <= tx.Length
    {
      tx[off..len]
    }

    constructor ()
      ensures Valid() && queued == [] && written == [] && Pending() == [] && fresh(tx)
    {
      tx := new byte[0];
      len, off, written, queued := 0, 0, [], [];
    }

    /** Move the backlog to the front of the buffer. */
    method Compact()
      requires Valid()
      modifies this`len, this`off, tx
      ensures Valid() && off == 0 && Pending() == old(Pending()) && tx.Length == old(tx.Length)
    {
      ghost var was := Pending();
      var pending := len - off;
      forall k | 0 <= k < pending {
        tx[k] := tx[off + k];
      }
      len, off := pending, 0;
      assert Pending() == was;
    }

    /** Enlarge the buffer to hold `need` bytes, keeping its contents. */
    method Grow(need: nat)
      requires Valid() && need >= len
      modifies this`tx
      ensures Valid() && fresh(tx) && tx.Length >= need && Pending() == old(Pending())
    {
      var capacity := if tx.Length > 0 then tx.Length else FIRST_CAPACITY;
      while capacity < need
        invariant capacity >= 1 && capacity >= len
        decreases need - capacity
      {
        capacity := capacity * 2;
      }
      var bigger := new byte[capacity];
      ghost var was := Pending();
      forall k | 0 <= k < len {
        bigger[k] := tx[k];
      }
      tx := bigger;
      assert Pending() == was;
    }

    /** `tx_queue`: append bytes, or refuse when the backlog would exceed its
        limit.  Compaction and growth lose nothing. */
    method Queue(buf: seq<byte>) returns (ok: bool)
      requires Valid()
      modifies this, tx
      ensures Valid() && written == old(written)
      ensures ok <==> |old(Pending())| + |buf| <= 67108864
      ensures queued == old(queued) + (if ok then buf else [])
      ensures Pending() == old(Pending()) + (if ok then buf else [])
      ensures tx == old(tx) || fresh(tx)
    {
      var pending := len - off;
      if pending + |buf| > BACKLOG_MAX {
        return false;
      }
      if off > 0 && (off >= len || off > tx.Length / 2) {
        Compact();
      }
      if len + |buf| > tx.Length {
        Grow(len + |buf|);
      }
      Append(buf);
      return true;
    }

    /** Header, then payload if there is one; a refused payload leaves a torn
        record behind, which is why the caller must drop the client then. */
    method QueueTwo(header: seq<byte>, data: seq<byte>) returns (ok: bool)
      requires Valid()
      modifies this, tx
      ensures Valid() && written == old(written) && old(queued) <= queued
      ensures ok <==> |old(Pending())| + |header| + |data| <= BACKLOG_MAX
      ensures ok ==> queued == old(queued) + (header + data)
      ensures ok ==> |Pending()| == |old(Pending())| + |header| + |data|
      ensures tx == old(tx) || fresh(tx)
    {
      ok := Queue(header);
      if ok && data != [] {
        ok := Queue(data);
      }
      assert ok ==> queued == old(queued) + header + data;
      assert old(queued) + (header + data) == old(queued) + header + data;
    }

    method Append(buf: seq<byte>)
      requires Valid() && len + |buf| <= tx.Length && len - off + |buf| <= BACKLOG_MAX
      modifies this`len, this`queued, tx
      ensures Valid() && queued == old(queued) + buf && Pending() == old(Pending()) + buf
    {
      ghost var was := Pending();
      forall k | 0 <= k < |buf| {
        tx[len + k] := buf[k];
      }
      len := len + |buf|;
      queued := queued + buf;
      assert Pending() == was + buf;
    }

    /** `taken` bytes went out. */
    method Advance(taken: nat)
      requires Valid() && taken <= len - off
      modifies this`off, this`written
      ensures Valid() && queued == old(queued) && old(written) <= written && off == old(off) + taken
    {
      ghost var was := Pending();
      written := written + tx[off..off + taken];
      off := off + taken;
      assert was == tx[off - taken..off] + Pending();
    }

    /** `tx_flush`: write until the backlog is gone or the socket stops taking.
        Whatever the socket does, no byte is lost, repeated or reordered. */
    method Flush(results: seq<WriteResult>) returns (ok: bool)
      requires Valid()
      modifies this`len, this`off, this`written
      ensures Valid() && queued == old(queued) && old(written) <= written
      ensures (|written| - |old(written)|, ok) == Drain(|old(Pending())|, results)
      ensures ok && len == 0 ==> written == queued
    {
      var i := 0;
      while off < len
        invariant 0 <= i <= |results|
        invariant Valid() && old(written) <= written && queued == old(queued) && off <= len
        invariant ghost var rest := Drain(len - off, results[i..]);
                  (|written| - |old(written)| + rest.0, rest.1) == Drain(|old(Pending())|, results)
        decreases |results| - i
      {
        if i == |results| {
          return true;  // the socket would block
        }
        match results[i] {
          case Wrote(n) =>
            if n == 0 {
              return false;
            }
            Advance(if n < len - off then n else len - off);
          case Again =>
            return true;
          case Interrupted =>
          case Failed =>
            return false;
        }
        i := i + 1;
      }
      len, off := 0, 0;
      return true;
    }
  }

  lemma StreamSnoc(enc: Encoder, hello: seq<byte>, records: seq<Record>, r: Record)
    ensures hello + EncodeAll(enc, records + [r]) == hello + EncodeAll(enc, records) + enc(r)
  {
    EncodeSnoc(enc, records, r);
    var s, e := EncodeAll(enc, records), enc(r);
    assert hello + (s + e) == hello + s + e;
  }

  /** A client's outbound stream: a HELLO, then whole records. */
  class Sender {
    const enc: Encoder
    const hello: seq<byte>
    const queue: TxQueue
    var live: bool
    ghost var records: seq<Record>

    ghost predicate Valid()
      reads this, queue, queue.tx
    {
      queue.Valid() && (live ==> queue.queued == hello + EncodeAll(enc, records))
    }

    constructor (enc: Encoder, hello: seq<byte>)
      requires |hello| <= BACKLOG_MAX
      ensures Valid() && live && records == [] && this.enc == enc && this.hello == hello
      ensures fresh(queue) && fresh(queue.tx)
    {
      this.enc, this.hello := enc, hello;
      queue := new TxQueue();
      records := [];
      new;
      var ok := queue.Queue(hello);
      live := true;
      assert hello + [] == hello;
    }

    /** `tx_record`: the record is queued whole, or the client is given up. */
    method Send(r: Record, header: seq<byte>, results: seq<WriteResult>)
      requires Valid() && live && enc(r) == header + r.data
      modifies this`live, this`records, queue, queue.tx
      ensures Valid() && old(queue.queued) <= queue.queued
      ensures live ==> records == old(records) + [r]
      ensures var total := |old(queue.Pending())| + |header| + |r.data|;
              live <==> total <= BACKLOG_MAX && Drain(total, results).1
      ensures old(queue.written) <= queue.written
      ensures live ==> |queue.Pending()| == |old(queue.Pending())| + |header| + |r.data|
                                            - Drain(|old(queue.Pending())| + |header| + |r.data|, results).0
      ensures queue.tx == old(queue.tx) || fresh(queue.tx)
    {
      QueueRecord(r, header);
      if !live {
        return;
      }
      FlushNow(results);
    }

    method QueueRecord(r: Record, header: seq<byte>)
      requires Valid() && live && enc(r) == header + r.data
      modifies this`live, this`records, queue, queue.tx
      ensures Valid() && old(queue.queued) <= queue.queued && queue.written == old(queue.written)
      ensures live <==> |old(queue.Pending())| + |header| + |r.data| <= BACKLOG_MAX
      ensures live ==> records == old(records) + [r] && |queue.Pending()| == |old(queue.Pending())| + |header| + |r.data|
      ensures queue.tx == old(queue.tx) || fresh(queue.tx)
    {
      StreamSnoc(enc, hello, records, r);
      live := queue.QueueTwo(header, r.data);
      if live {
        records := records + [r];
      }
    }

    method FlushNow(results: seq<WriteResult>)
      requires Valid() && live
      modifies this`live, queue`len, queue`off, queue`written
      ensures Valid() && queue.queued == old(queue.queued) && old(queue.written) <= queue.written
      ensures live == Drain(|old(queue.Pending())|, results).1
      ensures |queue.Pending()| == |old(queue.Pending())| - Drain(|old(queue.Pending())|, results).0
    {
      live := queue.Flush(results);
      assert |queue.queued| == |queue.written| + |queue.Pending()|;
    }
  }
}
