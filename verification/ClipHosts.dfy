/** The hosts of the clipboard bridge: what one makes of the records it is sent, the
    generations that tell copies apart, and who is sent or dropped by what. */
module ClipHosts {
  import opened Options
  import opened ClipFrame
  import opened ClipWire
  import opened ClipSend

  const MAX_CLIENTS := 4
  const GENERATIONS := 0xFFFF_FFFF  // distinct non-zero 32-bit generations

  type Items = map<u32, seq<byte>>

  // ---- what a host makes of its records ---------------------------------------------------

  datatype Host = Host(gen: u32, items: Items)

  const FRESH_HOST := Host(0, map[])

  /** A new generation replaces the clipboard, an equal one merges, NONE clears. */
  function Receive(h: Host, r: Record): Host {
    if r.kind == KIND_NONE then Host(r.gen, map[])
    else if r.gen != h.gen then Host(r.gen, map[r.kind := r.data])
    else h.(items := h.items[r.kind := r.data])
  }

  function Fold(records: seq<Record>): Host {
    if records == [] then FRESH_HOST else Receive(Fold(records[..|records| - 1]), records[|records| - 1])
  }

  lemma FoldSnoc(records: seq<Record>, r: Record)
    ensures Fold(records + [r]) == Receive(Fold(records), r)
  {
    assert (records + [r])[..|records|] == records;
  }

  // ---- generations ------------------------------------------------------------------------------

  /** The generation number of the n-th copy event: 1, 2, ..., 2^32-1, 1, ... */
  function GenOf(epoch: nat): u32 {
    if epoch == 0 then 0 else (epoch - 1) % GENERATIONS + 1
  }

  /** `g_gen++; if (g_gen == 0) g_gen = 1;` on 32 bits. */
  function NextGen(gen: u32): u32 {
    var g := (gen + 1) % 0x1_0000_0000;
    if g == 0 then 1 else g
  }

  lemma NextGenIs(epoch: nat)
    ensures NextGen(GenOf(epoch)) == GenOf(epoch + 1)
  {
    if epoch > 0 {
      ModStep(epoch - 1);
    }
  }

  lemma ModStep(x: nat)
    ensures (x + 1) % GENERATIONS == if x % GENERATIONS == GENERATIONS - 1 then 0 else x % GENERATIONS + 1
  {
  }

  /** Two generations coincide exactly when a whole cycle lies between them. */
  lemma GenDiffers(e: nat, f: nat)
    requires 0 < e <= f
    ensures GenOf(e) == GenOf(f) <==> (f - e) % GENERATIONS == 0
  {
  }

  // ---- one listening host -------------------------------------------------------------------------

  /** `seen` is the copy event of the last record the host was sent. */
  ghost predicate InSync(sent: seq<Record>, seen: nat, epoch: nat, items: Items) {
    var h := Fold(sent);
    && seen <= epoch && h.gen == GenOf(seen)
    && (seen > 0 ==> epoch - seen < GENERATIONS)
    && (if seen == epoch then h.items == items else items == map[])
  }

  lemma ItemSent(sent: seq<Record>, seen: nat, epoch: nat, items: Items, kind: u32, data: seq<byte>)
    requires InSync(sent, seen, epoch, items) && kind != KIND_NONE
    ensures InSync(sent + [Record(kind, GenOf(epoch), data)], epoch, epoch, items[kind := data])
  {
    FoldSnoc(sent, Record(kind, GenOf(epoch), data));
    if 0 < seen < epoch {
      GenDiffers(seen, epoch);
      assert 0 < epoch - seen < GENERATIONS;
      SmallMod(epoch - seen);
    }
    assert seen < epoch ==> items[kind := data] == map[kind := data];
  }

  lemma SmallMod(x: nat)
    requires 0 < x < GENERATIONS
    ensures x % GENERATIONS != 0
  {
  }

  lemma ClearSent(sent: seq<Record>, epoch: nat)
    ensures InSync(sent + [Record(KIND_NONE, GenOf(epoch), [])], epoch, epoch, map[])
  {
    FoldSnoc(sent, Record(KIND_NONE, GenOf(epoch), []));
  }

  /** An item, or the record that clears. */
  lemma RecordSent(sent: seq<Record>, seen: nat, epoch: nat, before: Items, items: Items, kind: u32, data: seq<byte>)
    requires InSync(sent, seen, epoch, before)
    requires if kind == KIND_NONE then data == [] && items == map[] else items == before[kind := data]
    ensures InSync(sent + [Record(kind, GenOf(epoch), data)], epoch, epoch, items)
  {
    if kind == KIND_NONE {
      ClearSent(sent, epoch);
    } else {
      ItemSent(sent, seen, epoch, before, kind, data);
    }
  }

  /** A new copy event keeps a host in sync unless a whole cycle passes unseen. */
  lemma EventBegins(sent: seq<Record>, seen: nat, epoch: nat, items: Items)
    requires InSync(sent, seen, epoch, items) && (seen > 0 ==> epoch + 1 - seen < GENERATIONS)
    ensures InSync(sent, seen, epoch + 1, map[])
  {
  }

  /** After a whole unseen cycle the next item merges into the stale set instead
      of replacing it: the host is right exactly when it had nothing else. */
  lemma CycleMerges(sent: seq<Record>, seen: nat, epoch: nat, kind: u32, data: seq<byte>)
    requires 0 < seen < epoch && (epoch - seen) % GENERATIONS == 0 && Fold(sent).gen == GenOf(seen) && kind != KIND_NONE
    ensures var h := Fold(sent + [Record(kind, GenOf(epoch), data)]);
            h.items == map[kind := data] <==> Fold(sent).items.Keys <= {kind}
  {
    GenDiffers(seen, epoch);
    FoldSnoc(sent, Record(kind, GenOf(epoch), data));
    var was := Fold(sent).items;
    if was.Keys <= {kind} {
      assert was[kind := data] == map[kind := data];
    } else {
      var k :| k in was && k != kind;
      assert k in was[kind := data] && k !in map[kind := data];
    }
  }

  // ---- the bridge ---------------------------------------------------------------------------------

  /** A connected host: what it was sent, and how many bytes of that the socket has
      not taken yet. */
  datatype Client = Client(handshaken: bool, lastRxGen: u32, sent: seq<Record>, backlog: nat)

  /** How the socket of each slot answers a flush. */
  type Answers = nat -> seq<WriteResult>

  /** `n` more bytes are queued and the queue is flushed: how many bytes are left,
      or nothing if they do not fit or the socket fails. */
  function LeftOver(backlog: nat, n: nat, answers: seq<WriteResult>): Option<nat> {
    var total := backlog + n;
    if total > BACKLOG_MAX then None
    else
      var d := Drain(total, answers);
      if d.1 then Some(total - d.0) else None
  }

  /** `tx_record`; None drops the client. */
  function Posted(c: Client, r: Record, answers: seq<WriteResult>): Option<Client> {
    match LeftOver(c.backlog, HEADER + |r.data|, answers)
    case None => None
    case Some(n) => Some(c.(sent := c.sent + [r], backlog := n))
  }

  /** `tx_hello` */
  function Greeted(c: Client, answers: seq<WriteResult>): Option<Client> {
    match LeftOver(c.backlog, HEADER, answers)
    case None => None
    case Some(n) => Some(c.(handshaken := true, backlog := n))
  }

  function PostedAll(c: Client, rs: seq<Record>, answers: Answers): Option<Client> {
    if rs == [] then Some(c)
    else
      match PostedAll(c, rs[..|rs| - 1], answers)
      case None => None
      case Some(d) => Posted(d, rs[|rs| - 1], answers(|rs| - 1))
  }

  /** Greeted, then sent a snapshot. */
  function Welcomed(c: Client, hello: seq<WriteResult>, rs: seq<Record>, answers: Answers): Option<Client> {
    match Greeted(c, hello)
    case None => None
    case Some(d) => PostedAll(d, rs, answers)
  }

  datatype Skip = Nobody | Only(slot: nat)

  /** Nothing a host would take for a violation. */
  ghost predicate AllAcceptable(sent: seq<Record>) {
    forall r :: r in sent ==> Acceptable(r)
  }

  /** The backlog is the end of the stream, and bounded. */
  ghost predicate ClientSound(c: Client) {
    && AllAcceptable(c.sent) && c.backlog <= BACKLOG_MAX
    && if c.handshaken then c.backlog <= |StreamOf(c.sent)| else c.sent == [] && c.backlog == 0
  }

  lemma PostedSound(c: Client, r: Record, answers: seq<WriteResult>)
    requires ClientSound(c) && c.handshaken && Acceptable(r) && Posted(c, r, answers).Some?
    ensures ClientSound(Posted(c, r, answers).value)
  {
    StreamLonger(c.sent, r);
    var d := Posted(c, r, answers).value;
    forall x | x in d.sent ensures Acceptable(x) {
    }
  }

  lemma GreetedSound(c: Client, answers: seq<WriteResult>)
    requires ClientSound(c) && !c.handshaken && Greeted(c, answers).Some?
    ensures ClientSound(Greeted(c, answers).value)
  {
    assert StreamOf([]) == EncodeHeader(HELLO);
  }

  /** The store after a record, for which hosts are about to be told. */
  ghost predicate Stores(r: Record, before: Items, items: Items) {
    && r.kind <= MAX_KIND && |r.data| <= ITEM_MAX
    && if r.kind == KIND_NONE then r.data == [] && items == map[] else items == before[r.kind := r.data]
  }

  lemma {:induction false} PostedAllSound(c: Client, rs: seq<Record>, answers: Answers)
    requires ClientSound(c) && c.handshaken && AllAcceptable(rs)
    ensures PostedAll(c, rs, answers).Some? ==>
              var d := PostedAll(c, rs, answers).value;
              ClientSound(d) && d.handshaken && d.lastRxGen == c.lastRxGen && d.sent == c.sent + rs
  {
    if rs != [] {
      var n := |rs| - 1;
      PostedAllSound(c, rs[..n], answers);
      if PostedAll(c, rs, answers).Some? {
        PostedSound(PostedAll(c, rs[..n], answers).value, rs[n], answers(n));
        assert c.sent + rs == c.sent + rs[..n] + [rs[n]];
      }
    } else {
      assert c.sent + rs == c.sent;
    }
  }

  lemma GenNotZero(epoch: nat)
    ensures GenOf(epoch) == 0 <==> epoch == 0
  {
  }

  /** Who a broadcast goes to. */
  predicate Receives(clients: map<nat, Client>, c: nat, skip: Skip) {
    c in clients && clients[c].handshaken && skip != Only(c)
  }

  /** Who is dropped by it: the record did not fit or the socket failed. */
  predicate Fails(clients: map<nat, Client>, c: nat, skip: Skip, r: Record, answers: Answers) {
    Receives(clients, c, skip) && Posted(clients[c], r, answers(c)).None?
  }

  /** The slots below `n` have been served: receivers got the record or were
      dropped; nobody else changed. */
  ghost predicate SentUpTo(was: map<nat, Client>, now: map<nat, Client>, n: nat, skip: Skip, r: Record,
                           answers: Answers) {
    && (forall c :: c in now <==> c in was && !(c < n && Fails(was, c, skip, r, answers)))
    && (forall c :: c in now ==>
                    now[c] == if c < n && Receives(was, c, skip) then Posted(was[c], r, answers(c)).value else was[c])
  }

  function OneServed(cs: map<nat, Client>, i: nat, posted: Option<Client>): map<nat, Client> {
    match posted
    case None => cs - {i}
    case Some(c) => cs[i := c]
  }

  lemma SentStep(was: map<nat, Client>, cs: map<nat, Client>, i: nat, skip: Skip, r: Record, answers: Answers)
    requires SentUpTo(was, cs, i, skip, r, answers)
    ensures var now := if Receives(cs, i, skip) then OneServed(cs, i, Posted(cs[i], r, answers(i))) else cs;
            SentUpTo(was, now, i + 1, skip, r, answers)
    ensures i in cs ==> i in was && cs[i] == was[i] && (Receives(cs, i, skip) <==> Receives(was, i, skip))
  {
  }

  /** The listeners left once the slots below `n` have been served. */
  ghost function Unfailed(hosts: set<nat>, was: map<nat, Client>, n: nat, skip: Skip, r: Record,
                          answers: Answers): set<nat> {
    set c | c in hosts && !(c < n && Fails(was, c, skip, r, answers))
  }

  lemma UnfailedStep(hosts: set<nat>, was: map<nat, Client>, cs: map<nat, Client>, n: nat, skip: Skip, r: Record,
                     answers: Answers)
    requires SentUpTo(was, cs, n, skip, r, answers)
    ensures var failed := Receives(cs, n, skip) && Posted(cs[n], r, answers(n)).None?;
            Unfailed(hosts, was, n + 1, skip, r, answers) ==
            Unfailed(hosts, was, n, skip, r, answers) - (if failed then {n} else {})
  {
  }

  /** The hosts below `i` follow the new set, the others still the old one. */
  ghost predicate Follow(cs: map<nat, Client>, seen: map<nat, nat>, hosts: set<nat>, epoch: nat, i: nat, items: Items,
                         before: Items) {
    forall c :: c in hosts ==> c in cs && c in seen && InSync(cs[c].sent, seen[c], epoch, if c < i then items else before)
  }

  /** Serving one slot leaves the others as they were. */
  lemma FollowOn(cs: map<nat, Client>, seen: map<nat, nat>, hosts: set<nat>, epoch: nat, i: nat, items: Items,
                 before: Items,
                 posted: Option<Client>, r: Record)
    requires Follow(cs, seen, hosts, epoch, i, items, before) && i in cs
    requires r.gen == GenOf(epoch) && Stores(r, before, items)
    requires posted.Some? ==> posted.value.sent == cs[i].sent + [r]
    ensures Follow(OneServed(cs, i, posted), if posted.None? then seen else seen[i := epoch],
                   hosts - (if posted.None? then {i} else {}), epoch, i + 1, items, before)
  {
    if posted.Some? && i in hosts {
      RecordSent(cs[i].sent, seen[i], epoch, before, items, r.kind, r.data);
      assert r == Record(r.kind, GenOf(epoch), r.data);
    }
  }

  lemma FollowSkip(cs: map<nat, Client>, seen: map<nat, nat>, hosts: set<nat>, epoch: nat, i: nat, items: Items,
                   before: Items)
    requires Follow(cs, seen, hosts, epoch, i, items, before) && i !in hosts
    ensures Follow(cs, seen, hosts, epoch, i + 1, items, before)
  {
  }

  /** What a new host is sent: one record for every stored kind below `k`. */
  function SnapshotBelow(items: Items, gen: u32, k: nat): seq<Record>
    requires k <= MAX_KIND + 1
  {
    if k == 0 then []
    else if k - 1 in items && k - 1 != KIND_NONE then SnapshotBelow(items, gen, k - 1) + [Record(k - 1, gen, items[k - 1])]
    else SnapshotBelow(items, gen, k - 1)
  }

  lemma {:induction false} AllOrNone(c: Client, rs: seq<Record>, n: nat, answers: Answers)
    requires n <= |rs| && PostedAll(c, rs[..n], answers).None?
    ensures PostedAll(c, rs, answers).None?
    decreases |rs|
  {
    if n < |rs| {
      assert rs[..|rs| - 1][..n] == rs[..n];
      AllOrNone(c, rs[..|rs| - 1], n, answers);
    } else {
      assert rs[..n] == rs;
    }
  }

  /** The items of the kinds below `k`. */
  function Below(items: Items, k: int): Items {
    map j | j in items && j < k :: items[j]
  }

  lemma BelowStep(items: Items, k: int)
    requires 0 < k <= MAX_KIND
    ensures Below(items, k + 1) == if k in items then Below(items, k)[k := items[k]] else Below(items, k)
  {
  }
}
