/** Clipboard convergence: what every host that only listens makes of the records
    sent to it is the bridge's own clipboard set, and that is what was copied. */
module ClipBridge {
  import opened Options
  import opened ClipFrame
  import opened ClipWire
  import opened ClipSend
  import opened ClipHosts
  import opened ClipTrace

  class Bridge {
    var items: Items
    var gen: u32
    var clients: map<nat, Client>
    ghost var epoch: nat
    ghost var seen: map<nat, nat>
    ghost var listening: set<nat>  // hosts that only received, and missed no whole cycle

    ghost function Now(): View
      reads this`items, this`gen, this`clients
    {
      View(items, gen, clients)
    }

    ghost predicate Shape()
      reads this
    {
      && gen == GenOf(epoch) && (items != map[] ==> epoch > 0)
      && (forall c :: c in clients ==> ClientSound(clients[c]) && (clients[c].lastRxGen != 0 ==> epoch > 0))
      && (forall k :: k in items ==> KIND_NONE < k <= MAX_KIND && |items[k]| <= ITEM_MAX)
      && (forall c :: c in clients ==> c < MAX_CLIENTS)
      && (forall c :: c in listening ==> c in clients && clients[c].handshaken && c in seen)
    }

    ghost predicate Converged(set': Items)
      reads this
      requires Shape()
    {
      forall c :: c in listening ==> InSync(clients[c].sent, seen[c], epoch, set')
    }

    /** A copy event more would still leave the host less than a cycle behind. */
    ghost predicate KeepsUp(c: nat)
      reads this`seen, this`epoch
    {
      c in seen && (seen[c] > 0 ==> epoch + 1 - seen[c] < GENERATIONS)
    }

    /** Every listening host's fold is the stored set, or the store is empty and
        the host has been sent nothing of the current copy event. */
    ghost predicate Valid()
      reads this
    {
      Shape() && Converged(items)
    }

    constructor ()
      ensures Valid() && items == map[] && clients == map[] && epoch == 0
    {
      items, gen, clients := map[], 0, map[];
      epoch, seen, listening := 0, map[], {};
    }

    /** `listen_dispatch`: the first free slot takes the new host, if any. */
    method Connect() returns (slot: nat)
      requires Valid()
      modifies this`clients
      ensures Valid()
      ensures slot < MAX_CLIENTS ==> slot !in old(clients) && clients == old(clients)[slot := Client(false, 0, [], 0)]
      ensures Joined(old(Now()), Now())
      ensures slot == MAX_CLIENTS ==> clients == old(clients) && forall c :: 0 <= c < MAX_CLIENTS ==> c in clients
      ensures slot <= MAX_CLIENTS
    {
      slot := 0;
      while slot < MAX_CLIENTS && slot in clients
        invariant 0 <= slot <= MAX_CLIENTS
        invariant forall c :: 0 <= c < slot ==> c in clients
      {
        slot := slot + 1;
      }
      if slot < MAX_CLIENTS {
        clients := clients[slot := Client(false, 0, [], 0)];
      }
    }

    method Disconnect(c: nat)
      requires Valid()
      modifies this`clients, this`listening
      ensures Valid() && clients == old(clients) - {c} && listening == old(listening) - {c}
    {
      clients := clients - {c};
      listening := listening - {c};
    }

    /** The records of `replay_snapshot` fold to the store. */
    method Snapshot() returns (sent: seq<Record>)
      requires Shape()
      ensures sent == SnapshotBelow(items, gen, MAX_KIND + 1)
      ensures Fold(sent).items == items && Fold(sent).gen == if sent == [] then 0 else gen
      ensures AllAcceptable(sent)
    {
      sent := [];
      GenNotZero(epoch);
      var k: int := 1;
      while k <= MAX_KIND
        invariant 1 <= k <= MAX_KIND + 1
        invariant sent == SnapshotBelow(items, gen, k)
        invariant Fold(sent).items == Below(items, k)
        invariant Fold(sent).gen == if sent == [] then 0 else gen
        invariant AllAcceptable(sent)
      {
        BelowStep(items, k);
        if k in items {
          var r := Record(k, gen, items[k]);
          FoldSnoc(sent, r);
          assert Acceptable(r);
          sent := sent + [r];
        }
        k := k + 1;
      }
      assert Below(items, k) == items;
    }

    /** Queue records one after another for one host. */
    method Replay(c: Client, records: seq<Record>, answers: Answers) returns (r: Option<Client>)
      ensures r == PostedAll(c, records, answers)
    {
      r := Some(c);
      for i := 0 to |records|
        invariant r == PostedAll(c, records[..i], answers) && r.Some?
      {
        assert records[..i + 1][..i] == records[..i];
        r := Posted(r.value, records[i], answers(i));
        if r.None? {
          AllOrNone(c, records, i + 1, answers);
          return;
        }
      }
      assert records[..|records|] == records;
    }

    /** The handshake: the host is greeted and sent the current set, one record per
        kind; if that does not fit or its socket fails, it is dropped. */
    method Handshake(c: nat, hello: seq<WriteResult>, answers: Answers)
      requires Valid() && c in clients && !clients[c].handshaken
      modifies this`clients, this`listening, this`seen
      ensures Valid()
      ensures var host := Welcomed(old(clients)[c], hello, SnapshotBelow(items, gen, MAX_KIND + 1), answers);
              && clients == OneServed(old(clients), c, host)
              && listening == old(listening) + (if host.Some? then {c} else {})
    {
      var sent := Snapshot();
      var host := Greeted(clients[c], hello);
      if host.None? {
        clients := clients - {c};
        return;
      }
      GreetedSound(clients[c], hello);
      ReplayTo(c, host.value, sent, answers);
    }

    /** The greeted host gets the whole set and listens, or is dropped. */
    method ReplayTo(c: nat, greeted: Client, sent: seq<Record>, answers: Answers)
      requires Valid() && c in clients && !clients[c].handshaken && c !in listening
      requires ClientSound(greeted) && greeted.handshaken && greeted.sent == [] && greeted.lastRxGen == clients[c].lastRxGen
      requires AllAcceptable(sent) && Fold(sent).items == items && Fold(sent).gen == if sent == [] then 0 else gen
      modifies this`clients, this`listening, this`seen
      ensures Valid()
      ensures var host := PostedAll(greeted, sent, answers);
              && clients == OneServed(old(clients), c, host)
              && listening == old(listening) + (if host.Some? then {c} else {})
    {
      PostedAllSound(greeted, sent, answers);
      var host := Replay(greeted, sent, answers);
      if host.None? {
        clients := clients - {c};
        return;
      }
      assert [] + sent == sent;
      Admit(c, host.value);
    }

    /** A host that was sent the whole set listens from now on. */
    method Admit(c: nat, host: Client)
      requires Valid() && c in clients && ClientSound(host) && host.handshaken && host.lastRxGen == clients[c].lastRxGen
      requires Fold(host.sent).items == items && Fold(host.sent).gen == if host.sent == [] then 0 else gen
      modifies this`clients, this`listening, this`seen
      ensures Valid() && clients == old(clients)[c := host] && listening == old(listening) + {c}
    {
      clients := clients[c := host];
      seen := seen[c := if host.sent == [] then 0 else epoch];
      listening := listening + {c};
    }

    /** A socket that can be written again takes more of its backlog. */
    method Flush(c: nat, answers: seq<WriteResult>)
      requires Valid() && c in clients
      modifies this`clients, this`listening
      ensures Valid()
      ensures var left := LeftOver(old(clients)[c].backlog, 0, answers);
              var now := if left.Some? then Some(old(clients)[c].(backlog := left.value)) else None;
              && clients == OneServed(old(clients), c, now)
              && listening == old(listening) - (if left.None? then {c} else {})
      ensures clients == OneServed(old(clients), c, WithMore(old(clients)[c], [], 0, answers))
    {
      assert clients[c].sent + [] == clients[c].sent;
      var left := LeftOver(clients[c].backlog, 0, answers);
      if left.None? {
        clients := clients - {c};
        listening := listening - {c};
        return;
      }
      clients := clients[c := clients[c].(backlog := left.value)];
    }

    /** `ioscclip_selection_begin`: the next generation, with an empty set. */
    method SelectionBegin()
      requires Valid()
      modifies this`items, this`gen, this`epoch, this`listening
      ensures Valid() && items == map[] && epoch == old(epoch) + 1 && gen == NextGen(old(gen))
      ensures listening == set c | c in old(listening) && (seen[c] > 0 ==> epoch - seen[c] < GENERATIONS)
    {
      NextGenIs(epoch);
      gen := NextGen(gen);
      items := map[];
      epoch := epoch + 1;
      listening := set c | c in listening && (seen[c] > 0 ==> epoch - seen[c] < GENERATIONS);
      forall c | c in listening ensures InSync(clients[c].sent, seen[c], epoch, items) {
        EventBegins(clients[c].sent, seen[c], old(epoch), old(items));
      }
    }

    /** Queue one record for every handshaken host but one; a host whose backlog
        would exceed its bound, or whose socket fails, is dropped. */
    method Broadcast(kind: u32, data: seq<byte>, skip: Skip, answers: Answers, ghost before: Items)
      requires Shape() && Converged(before) && epoch > 0 && kind <= MAX_KIND && |data| <= ITEM_MAX
      requires if kind == KIND_NONE then data == [] && items == map[] else items == before[kind := data]
      requires skip.Only? ==> skip.slot !in listening
      modifies this`clients, this`seen, this`listening
      ensures Valid()
      ensures listening == set c | c in old(listening) && !Fails(old(clients), c, skip, Record(kind, gen, data), answers)
      ensures SentUpTo(old(clients), clients, MAX_CLIENTS, skip, Record(kind, gen, data), answers)
    {
      ServeAll(Record(kind, gen, data), skip, answers, before);
      assert forall c :: c in old(clients) ==> c < MAX_CLIENTS;
    }

    method ServeAll(r: Record, skip: Skip, answers: Answers, ghost before: Items)
      requires Shape() && ServedTo(0, before) && epoch > 0 && r.gen == gen && Stores(r, before, items)
      requires skip.Only? ==> skip.slot !in listening
      modifies this`clients, this`seen, this`listening
      ensures Shape() && ServedTo(MAX_CLIENTS, before)
      ensures listening == Unfailed(old(listening), old(clients), MAX_CLIENTS, skip, r, answers)
      ensures SentUpTo(old(clients), clients, MAX_CLIENTS, skip, r, answers)
    {
      var i := 0;
      while i < MAX_CLIENTS
        invariant 0 <= i <= MAX_CLIENTS
        invariant Shape() && ServedTo(i, before)
        invariant listening == Unfailed(old(listening), old(clients), i, skip, r, answers)
        invariant SentUpTo(old(clients), clients, i, skip, r, answers)
      {
        ServeSlot(i, r, skip, answers, before, old(clients), old(listening));
        i := i + 1;
      }
    }

    /** Hosts below `i` follow the new set, the others still the old one. */
    ghost predicate ServedTo(i: nat, before: Items)
      reads this
    {
      Follow(clients, seen, listening, epoch, i, items, before)
    }

    method ServeSlot(i: nat, r: Record, skip: Skip, answers: Answers, ghost before: Items,
                     ghost was: map<nat, Client>, ghost listeners: set<nat>)
      requires Shape() && ServedTo(i, before) && i < MAX_CLIENTS
      requires epoch > 0 && r.gen == gen && Stores(r, before, items)
      requires skip.Only? ==> skip.slot !in listeners
      requires listening == Unfailed(listeners, was, i, skip, r, answers)
      requires SentUpTo(was, clients, i, skip, r, answers)
      modifies this`clients, this`seen, this`listening
      ensures Shape() && ServedTo(i + 1, before)
      ensures listening == Unfailed(listeners, was, i + 1, skip, r, answers)
      ensures SentUpTo(was, clients, i + 1, skip, r, answers)
    {
      SentStep(was, clients, i, skip, r, answers);
      UnfailedStep(listeners, was, clients, i, skip, r, answers);
      if !Receives(clients, i, skip) {
        FollowSkip(clients, seen, listening, epoch, i, items, before);
        return;
      }
      FollowOn(clients, seen, listening, epoch, i, items, before, Posted(clients[i], r, answers(i)), r);
      Deliver(i, r, answers(i));
    }

    method Deliver(i: nat, r: Record, answers: seq<WriteResult>)
      requires Shape() && i in clients && clients[i].handshaken
      requires epoch > 0 && r.gen == gen && r.kind <= MAX_KIND && |r.data| <= ITEM_MAX
      requires (r.kind == KIND_NONE ==> r.data == [])
      modifies this`clients, this`seen, this`listening
      ensures Shape()
      ensures var posted := Posted(old(clients)[i], r, answers);
              && clients == OneServed(old(clients), i, posted)
              && listening == old(listening) - (if posted.None? then {i} else {})
              && seen == if posted.None? then old(seen) else old(seen)[i := epoch]
    {
      var posted := Posted(clients[i], r, answers);
      if posted.None? {
        clients := clients - {i};
        listening := listening - {i};
      } else {
        GenNotZero(epoch);
        PostedSound(clients[i], r, answers);
        clients := clients[i := posted.value];
        seen := seen[i := epoch];
      }
    }

    /** `ioscclip_publish`: store one representation and send it on, unless it is
        already there.  A copy begins before it publishes. */
    method Publish(kind: u32, data: seq<byte>, answers: Answers) returns (ok: bool)
      requires Valid() && epoch > 0
      modifies this`items, this`clients, this`seen, this`listening
      ensures Valid()
      ensures ok <==> 0 < kind <= MAX_KIND && |data| <= ITEM_MAX
      ensures items == if ok then old(items)[kind := data] else old(items)
      ensures if !ok || (kind in old(items) && old(items)[kind] == data)
              then clients == old(clients) && listening == old(listening)
              else SentUpTo(old(clients), clients, MAX_CLIENTS, Nobody, Record(kind, gen, data), answers)
      ensures forall c :: c in old(listening) && c in clients ==> c in listening
      ensures clients.Keys <= old(clients).Keys
      ensures Copied(old(Now()), Now(), kind, data, answers)
    {
      GenNotZero(epoch);
      if kind in items && items[kind] == data {
        assert items[kind := data] == items;
        return true;
      }
      if kind == 0 || kind > MAX_KIND || |data| > ITEM_MAX {
        return false;
      }
      StoreAndSend(kind, data, Nobody, answers);
      SentIsTold(old(clients), clients, Nobody, Record(kind, gen, data), answers);
      return true;
    }

    method StoreAndSend(kind: u32, data: seq<byte>, skip: Skip, answers: Answers)
      requires Valid() && epoch > 0 && 0 < kind <= MAX_KIND && |data| <= ITEM_MAX
      requires skip.Only? ==> skip.slot !in listening
      modifies this`items, this`clients, this`seen, this`listening
      ensures Valid() && items == old(items)[kind := data]
      ensures listening == set c | c in old(listening) && !Fails(old(clients), c, skip, Record(kind, gen, data), answers)
      ensures SentUpTo(old(clients), clients, MAX_CLIENTS, skip, Record(kind, gen, data), answers)
    {
      items := items[kind := data];
      Broadcast(kind, data, skip, answers, old(items));
    }

    /** `ioscclip_selection_clear` */
    method SelectionClear(answers: Answers)
      requires Valid()
      modifies this
      ensures Valid() && items == map[] && epoch == old(epoch) + 1
      ensures Emptied(old(Now()), Now(), answers)
      ensures SentUpTo(old(clients), clients, MAX_CLIENTS, Nobody, Record(KIND_NONE, gen, []), answers)
      ensures forall c :: c in old(listening) && old(KeepsUp(c)) && c in clients ==> c in listening
    {
      SelectionBegin();
      Broadcast(KIND_NONE, [], Nobody, answers, map[]);
      SentIsTold(old(clients), clients, Nobody, Record(KIND_NONE, gen, []), answers);
    }

    /** `rx_dispatch` of a record that passed its checks: the sending host stops
        being a listener, its item is stored and relayed to everybody else. */
    method ReceiveFrom(c: nat, r: Record, answers: Answers)
      requires Valid() && c in clients && clients[c].handshaken
      requires r.gen != 0 && r.kind <= MAX_KIND && |r.data| <= ITEM_MAX && (r.kind == KIND_NONE ==> r.data == [])
      modifies this
      ensures Valid() && c !in listening
      ensures r.kind == KIND_NONE ==> items == map[]
      ensures r.kind != KIND_NONE ==>
                items == (if r.gen != old(clients)[c].lastRxGen then map[] else old(items))[r.kind := r.data]
      ensures epoch == old(epoch) + (if r.kind == KIND_NONE || r.gen != old(clients)[c].lastRxGen then 1 else 0)
      ensures SentUpTo(old(clients)[c := old(clients)[c].(lastRxGen := r.gen)], clients, MAX_CLIENTS, Only(c),
                       Record(r.kind, gen, r.data), answers)
      ensures forall d :: d in old(listening) && old(KeepsUp(d)) && d != c && d in clients ==> d in listening
      ensures gen == if r.kind == KIND_NONE || r.gen != old(clients)[c].lastRxGen then NextGen(old(gen)) else old(gen)
    {
      var _ := NoteGeneration(c, r.gen, r.kind == KIND_NONE);
      if r.kind == KIND_NONE {
        Broadcast(KIND_NONE, [], Only(c), answers, map[]);
      } else {
        StoreAndSend(r.kind, r.data, Only(c), answers);
      }
    }

    /** A host's new generation, like its clear, starts the bridge's next one. */
    method NoteGeneration(c: nat, rxGen: u32, clears: bool) returns (first: bool)
      requires Valid() && c in clients && rxGen != 0
      modifies this`items, this`gen, this`epoch, this`listening, this`clients
      ensures Valid() && epoch > 0 && c !in listening && first == (rxGen != old(clients)[c].lastRxGen)
      ensures clients == old(clients)[c := old(clients)[c].(lastRxGen := rxGen)]
      ensures items == if first || clears then map[] else old(items)
      ensures epoch == old(epoch) + if first || clears then 1 else 0
      ensures gen == if first || clears then NextGen(old(gen)) else old(gen)
      ensures forall d :: d in old(listening) && old(KeepsUp(d)) && d != c ==> d in listening
    {
      first := rxGen != clients[c].lastRxGen;
      listening := listening - {c};
      if first || clears {
        SelectionBegin();
      }
      clients := clients[c := clients[c].(lastRxGen := rxGen)];
    }

    /** The bytes queued for a host since its handshake. */
    ghost function Stream(c: nat): seq<byte>
      reads this`clients
      requires c in clients
    {
      StreamOf(clients[c].sent)
    }

    /** The promise to a host: what it makes of its bytes is the session clipboard,
        or the session clipboard is empty and it has not heard of the latest copy. */
    lemma HostConverges(c: nat)
      requires Valid() && c in listening
      ensures var p := Parse(DecodeHeader, Stream(c), false);
              && !p.violated && p.handshaken && p.rest == []
              && (Fold(p.records).items == items || (items == map[] && seen[c] < epoch))
    {
      StreamRoundTrip(clients[c].sent);
    }

    /** Any part of the bytes its socket took so far reads, without a violation, as
        the first records it was sent; once the backlog is gone that part may be
        the whole stream. */
    lemma HostReads(c: nat, k: nat)
      requires Valid() && c in clients && clients[c].handshaken && k <= |Stream(c)| - clients[c].backlog
      ensures var p := Parse(DecodeHeader, Stream(c)[..k], false); !p.violated && p.records <= clients[c].sent
    {
      PartReads(clients[c].sent, k);
    }

    // ---- runs ------------------------------------------------------------------------------

    /** One event, with all it does; a listener stays one unless it leaves, sends, is
        dropped, or a new copy finds it a cycle behind. */
    method Step(e: Event)
      requires Valid()
      modifies this
      ensures Valid() && Served(old(Now()), Now(), e)
      ensures forall c :: c in old(listening) && (Begins(e) ==> old(KeepsUp(c))) && !Sends(e, c) && c in clients ==>
                          c in listening
      ensures e.Hello? && e.c in old(clients) && !old(clients)[e.c].handshaken && e.c in clients ==> e.c in listening
    {
      match e
      case Connected => var _ := Connect();
      case Gone(c) => Disconnect(c);
      case Hello(c, hello, answers) =>
        if c in clients && !clients[c].handshaken {
          Handshake(c, hello, answers);
        }
      case Writable(c, answers) =>
        if c in clients {
          Flush(c, answers);
        }
      case Begun => SelectionBegin();
      case Published(kind, data, answers) =>
        if gen != 0 {
          GenNotZero(epoch);
          var _ := Publish(kind, data, answers);
        }
      case Cleared(answers) => SelectionClear(answers);
      case Received(c, r, answers) =>
        if c in clients && clients[c].handshaken && Acceptable(r) {
          TakeFrom(c, r, answers);
        }
    }

    method TakeFrom(c: nat, r: Record, answers: Answers)
      requires Valid() && Dispatched(Now(), c, r)
      modifies this
      ensures Valid() && c !in listening && Taken(old(Now()), Now(), c, r, answers)
      ensures forall d :: d in old(listening) && old(KeepsUp(d)) && d != c && d in clients ==> d in listening
    {
      ghost var noted := clients[c := clients[c].(lastRxGen := r.gen)];
      ReceiveFrom(c, r, answers);
      SentIsTold(noted, clients, Only(c), Record(r.kind, gen, r.data), answers);
    }

    /** In every run, also with anything between a copy and the publishing of its
        representations, the store ends with what was copied last, each listening host
        reads its bytes as that, unless the store is empty and nothing of the current
        copy has been sent to it; and whatever part of them it has got reads as its
        first records. */
    method Run(events: seq<Event>) returns (ghost views: seq<View>)
      requires Valid()
      modifies this
      ensures Valid()
      ensures Trace(views, events) && views[0] == old(Now()) && views[|events|] == Now()
      ensures forall kind, data :: Holds(items, kind, data) <==> LastCopied(views, events, |events|, kind, data)
      ensures forall c :: c in listening ==>
                c in clients && c in seen &&
                var p := Parse(DecodeHeader, Stream(c), false);
                && !p.violated && p.rest == []
                && (Fold(p.records).items == items || (items == map[] && seen[c] < epoch))
      ensures forall c :: c in clients ==> clients[c].backlog <= BACKLOG_MAX
      ensures forall c, k :: c in clients && clients[c].handshaken && 0 <= k <= |Stream(c)| - clients[c].backlog ==>
                var p := Parse(DecodeHeader, Stream(c)[..k], false); !p.violated && p.records <= clients[c].sent
    {
      views := [Now()];
      assert events[..0] == [];
      for i := 0 to |events|
        invariant Valid() && |views| == i + 1 && views[0] == old(Now()) && views[i] == Now()
        invariant Trace(views, events[..i])
      {
        Step(events[i]);
        OneMore(views, events, i, Now());
        views := views + [Now()];
      }
      assert events[..|events|] == events;
      forall kind, data
        ensures Holds(items, kind, data) <==> LastCopied(views, events, |events|, kind, data)
      {
        StoreIsCopied(views, events, |events|, kind, data);
      }
      HostsRead();
    }

    /** What all hosts make of their bytes. */
    lemma HostsRead()
      requires Valid()
      ensures forall c :: c in listening ==>
                c in clients && c in seen &&
                var p := Parse(DecodeHeader, Stream(c), false);
                && !p.violated && p.rest == []
                && (Fold(p.records).items == items || (items == map[] && seen[c] < epoch))
      ensures forall c, k :: c in clients && clients[c].handshaken && 0 <= k <= |Stream(c)| - clients[c].backlog ==>
                var p := Parse(DecodeHeader, Stream(c)[..k], false); !p.violated && p.records <= clients[c].sent
    {
      forall c | c in listening
        ensures var p := Parse(DecodeHeader, Stream(c), false);
                && !p.violated && p.rest == []
                && (Fold(p.records).items == items || (items == map[] && seen[c] < epoch))
      {
        HostConverges(c);
      }
      forall c, k | c in clients && clients[c].handshaken && 0 <= k <= |Stream(c)| - clients[c].backlog
        ensures var p := Parse(DecodeHeader, Stream(c)[..k], false); !p.violated && p.records <= clients[c].sent
      {
        HostReads(c, k);
      }
    }
  }

  // ---- the queue behind a client ----------------------------------------------------------------

  /** The transmit queue of a live client holds its backlog. */
  ghost predicate Carries(s: Sender, c: Client)
    reads s, s.queue, s.queue.tx
  {
    && s.Valid() && s.live && s.enc == EncodeRecord && s.hello == EncodeHeader(HELLO)
    && c.handshaken && s.records == c.sent && |s.queue.Pending()| == c.backlog
  }

  /** What its socket took and what still waits are the client's stream. */
  lemma CarriedStream(s: Sender, c: Client)
    requires Carries(s, c)
    ensures s.queue.written + s.queue.Pending() == StreamOf(c.sent)
    ensures s.queue.written == StreamOf(c.sent)[..|StreamOf(c.sent)| - c.backlog]
  {
  }

  /** Sending on the queue is what `Posted` says, also about who is dropped. */
  method PostOn(s: Sender, ghost c: Client, r: Record, answers: seq<WriteResult>)
    requires Carries(s, c)
    modifies s, s.queue, s.queue.tx
    ensures s.live <==> Posted(c, r, answers).Some?
    ensures s.live ==> Carries(s, Posted(c, r, answers).value)
  {
    s.Send(r, EncodeHeader(RecordHeader(r)), answers);
  }
}
