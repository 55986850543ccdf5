/** What each event does to the bridge as a whole, and what a run of them leaves in its
    store: the last valid data of every kind since the last copy, clear, or first record
    of a host's new generation. */
module ClipTrace {
  import opened Options
  import opened ClipFrame
  import opened ClipWire
  import opened ClipSend
  import opened ClipHosts

  datatype Event =
    | Connected
    | Gone(c: nat)
    | Hello(c: nat, hello: seq<WriteResult>, answers: Answers)
    | Writable(c: nat, flush: seq<WriteResult>)
    | Begun
    | Published(kind: u32, data: seq<byte>, answers: Answers)
    | Cleared(answers: Answers)
    | Received(c: nat, r: Record, answers: Answers)

  /** A new generation may begin: a copy, a clear, or a host's record. */
  predicate Begins(e: Event) {
    e.Begun? || e.Cleared? || e.Received?
  }

  /** The host itself speaks up, which ends its listening. */
  predicate Sends(e: Event, c: nat) {
    e.Received? && e.c == c
  }

  /** The bridge as a value. */
  datatype View = View(items: Items, gen: u32, clients: map<nat, Client>)

  // ---- one event -------------------------------------------------------------------------------

  /** A host after `n` more bytes were queued and flushed. */
  function WithMore(c: Client, sent: seq<Record>, n: nat, answers: seq<WriteResult>): Option<Client> {
    match LeftOver(c.backlog, n, answers)
    case None => None
    case Some(left) => Some(c.(sent := c.sent + sent, backlog := left))
  }

  /** Every handshaken host but the skipped one has been sent the record, or is dropped
      if it does not fit or its socket fails; nobody else notices. */
  ghost predicate Told(was: map<nat, Client>, now: map<nat, Client>, skip: Option<nat>, r: Record, answers: Answers) {
    forall c ::
      if c in was && was[c].handshaken && skip != Some(c) then
        var d := WithMore(was[c], [r], HEADER + |r.data|, answers(c));
        if d.Some? then c in now && now[c] == d.value else c !in now
      else if c in was then c in now && now[c] == was[c]
      else c !in now
  }

  lemma SentIsTold(was: map<nat, Client>, now: map<nat, Client>, skip: Skip, r: Record, answers: Answers)
    requires SentUpTo(was, now, MAX_CLIENTS, skip, r, answers) && forall c :: c in was ==> c < MAX_CLIENTS
    ensures Told(was, now, if skip.Only? then Some(skip.slot) else None, r, answers)
  {
    forall c | c in was && Receives(was, c, skip)
      ensures Posted(was[c], r, answers(c)) == WithMore(was[c], [r], HEADER + |r.data|, answers(c))
    {
    }
  }

  /** The first free slot takes the new host, if there is one. */
  ghost predicate Joined(v: View, w: View) {
    if forall c :: 0 <= c < MAX_CLIENTS ==> c in v.clients then w == v
    else
      exists slot ::
        && 0 <= slot < MAX_CLIENTS && slot !in v.clients && (forall c :: 0 <= c < slot ==> c in v.clients)
        && w == v.(clients := v.clients[slot := Client(false, 0, [], 0)])
  }

  /** One representation: stored and sent on if a copy has begun, it is valid, and it is
      not there already. */
  ghost predicate Copied(v: View, w: View, kind: u32, data: seq<byte>, answers: Answers) {
    if v.gen == 0 || !(0 < kind <= 4 && |data| <= 16 * 1024 * 1024) || (kind in v.items && v.items[kind] == data)
    then w == v
    else
      && w == v.(items := v.items[kind := data], clients := w.clients)
      && Told(v.clients, w.clients, None, Record(kind, v.gen, data), answers)
  }

  ghost predicate Emptied(v: View, w: View, answers: Answers) {
    && w == View(map[], NextGen(v.gen), w.clients)
    && Told(v.clients, w.clients, None, Record(KIND_NONE, w.gen, []), answers)
  }

  /** A record is dispatched if its host has shaken hands and it breaks no rule. */
  predicate Dispatched(v: View, c: nat, r: Record) {
    c in v.clients && v.clients[c].handshaken && Acceptable(r)
  }

  /** A host's record starts a new set if it clears or is of another generation than
      that host's record before. */
  predicate NewSet(v: View, c: nat, r: Record) {
    c in v.clients && (r.kind == KIND_NONE || r.gen != v.clients[c].lastRxGen)
  }

  ghost predicate Taken(v: View, w: View, c: nat, r: Record, answers: Answers) {
    if !Dispatched(v, c, r) then w == v
    else
      var base := if NewSet(v, c, r) then map[] else v.items;
      var noted := v.clients[c := v.clients[c].(lastRxGen := r.gen)];
      && w.gen == (if NewSet(v, c, r) then NextGen(v.gen) else v.gen)
      && w.items == (if r.kind == KIND_NONE then map[] else base[r.kind := r.data])
      && Told(noted, w.clients, Some(c), Record(r.kind, w.gen, r.data), answers)
  }

  /** What one event does, all of it. */
  ghost predicate Served(v: View, w: View, e: Event) {
    match e
    case Connected => Joined(v, w)
    case Gone(c) => w == v.(clients := v.clients - {c})
    case Hello(c, hello, answers) =>
      if c in v.clients && !v.clients[c].handshaken then
        var sent := SnapshotBelow(v.items, v.gen, MAX_KIND + 1);
        w == v.(clients := OneServed(v.clients, c, Welcomed(v.clients[c], hello, sent, answers)))
      else w == v
    case Writable(c, flush) =>
      if c in v.clients then w == v.(clients := OneServed(v.clients, c, WithMore(v.clients[c], [], 0, flush))) else w == v
    case Begun => w == v.(items := map[], gen := NextGen(v.gen))
    case Published(kind, data, answers) => Copied(v, w, kind, data, answers)
    case Cleared(answers) => Emptied(v, w, answers)
    case Received(c, r, answers) => Taken(v, w, c, r, answers)
  }

  /** A run: the states in between, each what its event makes of the one before. */
  ghost predicate Trace(views: seq<View>, events: seq<Event>) {
    && |views| == |events| + 1
    && forall k :: 0 <= k < |events| ==> Served(views[k], views[k + 1], events[k])
  }

  lemma OneMore(views: seq<View>, events: seq<Event>, i: nat, w: View)
    requires i < |events| && |views| == i + 1 && Trace(views, events[..i]) && Served(views[i], w, events[i])
    ensures Trace(views + [w], events[..i + 1])
  {
    var more, es := views + [w], events[..i + 1];
    forall k | 0 <= k < i + 1
      ensures Served(more[k], more[k + 1], es[k])
    {
      if k < i {
        assert more[k + 1] == views[k + 1] && more[k] == views[k] && es[k] == events[..i][k];
      }
    }
  }

  // ---- what was copied -----------------------------------------------------------------------------

  /** The generation of the last record that came from the host at `c` since it took its
      slot, or what it was at the start of the run; 0 for none. */
  ghost function Heard(views: seq<View>, events: seq<Event>, k: nat, c: nat): u32
    requires k < |views| && k <= |events|
  {
    if k == 0 then (if c in views[0].clients then views[0].clients[c].lastRxGen else 0)
    else if events[k - 1].Received? && events[k - 1].c == c && Dispatched(views[k - 1], c, events[k - 1].r)
    then events[k - 1].r.gen
    else if c in views[k - 1].clients then Heard(views, events, k - 1, c)
    else 0
  }

  /** Event `k` starts a new set: a copy, a clear, or a host's record that clears or is
      the first of a new generation of that host. */
  ghost predicate Restarts(views: seq<View>, events: seq<Event>, k: nat)
    requires k < |views| && k < |events|
  {
    match events[k]
    case Begun => true
    case Cleared(_) => true
    case Received(c, r, _) => Dispatched(views[k], c, r) && (r.kind == KIND_NONE || r.gen != Heard(views, events, k, c))
    case _ => false
  }

  /** Event `k` brings data of this kind: a valid representation of a copy that has begun,
      or a host's record. */
  ghost predicate Brings(views: seq<View>, events: seq<Event>, k: nat, kind: u32, data: seq<byte>)
    requires k < |views| && k < |events|
  {
    match events[k]
    case Published(kind', data', _) =>
      kind' == kind && data' == data && 0 < kind <= 4 && |data| <= 16 * 1024 * 1024 && views[k].gen != 0
    case Received(c, r, _) => Dispatched(views[k], c, r) && r.kind == kind && r.data == data && kind != KIND_NONE
    case _ => false
  }

  /** Between `k` and `n` nothing started a new set or brought this kind. */
  ghost predicate Undisturbed(views: seq<View>, events: seq<Event>, k: int, n: nat, kind: u32)
    requires n < |views| && n <= |events| && -1 <= k
  {
    forall m: nat :: k < m < n ==> Quiet(views, events, m, kind)
  }

  /** Event `m` neither starts a new set nor brings this kind. */
  ghost predicate Quiet(views: seq<View>, events: seq<Event>, m: nat, kind: u32)
    requires m < |views| && m < |events|
  {
    !Restarts(views, events, m) && forall data :: !Brings(views, events, m, kind, data)
  }

  /** The last data of this kind since the last new set, by the events alone; what the
      store held at the start of the run counts as brought before it. */
  ghost predicate LastCopied(views: seq<View>, events: seq<Event>, n: nat, kind: u32, data: seq<byte>)
    requires n < |views| && n <= |events|
  {
    || (exists k :: 0 <= k < n && Brings(views, events, k, kind, data) && Undisturbed(views, events, k, n, kind))
    || (Undisturbed(views, events, -1, n, kind) && kind in views[0].items && views[0].items[kind] == data)
  }

  /** What a host last sent is what its slot remembers. */
  lemma {:induction false} HeardIs(views: seq<View>, events: seq<Event>, k: nat, c: nat)
    requires Trace(views, events) && k <= |events| && c in views[k].clients
    ensures Heard(views, events, k, c) == views[k].clients[c].lastRxGen
    decreases k
  {
    if k > 0 {
      var v, w, e := views[k - 1], views[k], events[k - 1];
      assert Served(v, w, e);
      SlotKept(v, w, e, c);
      if c in v.clients {
        HeardIs(views, events, k - 1, c);
      }
    }
  }

  /** A slot's memory changes only by its own host's records. */
  lemma SlotKept(v: View, w: View, e: Event, c: nat)
    requires Served(v, w, e) && c in w.clients
    ensures w.clients[c].lastRxGen ==
            if e.Received? && e.c == c && Dispatched(v, c, e.r) then e.r.gen
            else if c in v.clients then v.clients[c].lastRxGen
            else 0
  {
    if e.Hello? && c in v.clients && e.c == c && !v.clients[c].handshaken {
      WelcomeKeeps(v.clients[c], e.hello, SnapshotBelow(v.items, v.gen, MAX_KIND + 1), e.answers);
    }
  }

  lemma {:induction false} PostedAllKeeps(c: Client, rs: seq<Record>, answers: Answers)
    ensures PostedAll(c, rs, answers).Some? ==> PostedAll(c, rs, answers).value.lastRxGen == c.lastRxGen
  {
    if rs != [] {
      PostedAllKeeps(c, rs[..|rs| - 1], answers);
    }
  }

  lemma WelcomeKeeps(c: Client, hello: seq<WriteResult>, rs: seq<Record>, answers: Answers)
    ensures Welcomed(c, hello, rs, answers).Some? ==> Welcomed(c, hello, rs, answers).value.lastRxGen == c.lastRxGen
  {
    if Greeted(c, hello).Some? {
      PostedAllKeeps(Greeted(c, hello).value, rs, answers);
    }
  }

  lemma GenStep(views: seq<View>, events: seq<Event>, k: nat)
    requires Trace(views, events) && k < |events|
    ensures views[k + 1].gen == if Restarts(views, events, k) then NextGen(views[k].gen) else views[k].gen
  {
    assert Served(views[k], views[k + 1], events[k]);
    if events[k].Received? && events[k].c in views[k].clients {
      HeardIs(views, events, k, events[k].c);
    }
  }

  /** A copy has begun once any new set has started. */
  lemma {:induction false} BegunExactly(views: seq<View>, events: seq<Event>, n: nat)
    requires Trace(views, events) && n <= |events|
    ensures views[n].gen != 0 <==> views[0].gen != 0 || exists m: nat :: m < n && Restarts(views, events, m)
    decreases n
  {
    if n > 0 {
      BegunExactly(views, events, n - 1);
      GenStep(views, events, n - 1);
      assert NextGen(views[n - 1].gen) != 0;
    }
  }

  /** The store after one event: what was there unless a new set starts, and what the
      event brings. */
  lemma StoreStep(views: seq<View>, events: seq<Event>, k: nat, kind: u32, data: seq<byte>)
    requires Trace(views, events) && k < |events|
    ensures var was, now := views[k].items, views[k + 1].items;
            (kind in now && now[kind] == data) <==>
            || Brings(views, events, k, kind, data)
            || (Quiet(views, events, k, kind) && kind in was && was[kind] == data)
  {
    var v, w, e := views[k], views[k + 1], events[k];
    assert Served(v, w, e);
    if e.Received? && e.c in v.clients {
      HeardIs(views, events, k, e.c);
    }
    if e.Published? {
      assert kind == e.kind && 0 < kind <= 4 && |e.data| <= 16 * 1024 * 1024 && v.gen != 0 ==>
               Brings(views, events, k, kind, e.data);
    }
    if e.Received? && Dispatched(v, e.c, e.r) && e.r.kind == kind != KIND_NONE {
      assert Brings(views, events, k, kind, e.r.data);
    }
  }

  predicate Holds(items: Items, kind: u32, data: seq<byte>) { kind in items && items[kind] == data }

  lemma NothingYet(views: seq<View>, events: seq<Event>, kind: u32, data: seq<byte>)
    requires |views| > 0
    ensures Holds(views[0].items, kind, data) <==> LastCopied(views, events, 0, kind, data)
  {
    assert Undisturbed(views, events, -1, 0, kind);
  }

  /** The store and the events agree about this. */
  ghost predicate Agrees(views: seq<View>, events: seq<Event>, n: nat, kind: u32, data: seq<byte>)
    requires n < |views| && n <= |events|
  {
    Holds(views[n].items, kind, data) <==> LastCopied(views, events, n, kind, data)
  }

  lemma AgreesNext(views: seq<View>, events: seq<Event>, n: nat, kind: u32, data: seq<byte>)
    requires Trace(views, events) && n < |events| && Agrees(views, events, n, kind, data)
    ensures Agrees(views, events, n + 1, kind, data)
  {
    var was, now := Holds(views[n].items, kind, data), Holds(views[n + 1].items, kind, data);
    var brings, quiet := Brings(views, events, n, kind, data), Quiet(views, events, n, kind);
    assert now == (brings || (quiet && was)) by {
      StoreStep(views, events, n, kind, data);
    }
    assert LastCopied(views, events, n + 1, kind, data) == (brings || (quiet && was)) by {
      LastCopiedStep(views, events, n, kind, data);
    }
  }

  /** In every run the store holds exactly what was copied last. */
  lemma {:induction false} StoreIsCopied(views: seq<View>, events: seq<Event>, n: nat, kind: u32, data: seq<byte>)
    requires Trace(views, events) && n <= |events|
    ensures Holds(views[n].items, kind, data) <==> LastCopied(views, events, n, kind, data)
    decreases n
  {
    if n == 0 {
      NothingYet(views, events, kind, data);
    } else {
      StoreIsCopied(views, events, n - 1, kind, data);
      AgreesNext(views, events, n - 1, kind, data);
    }
  }

  lemma LastCopiedStep(views: seq<View>, events: seq<Event>, n: nat, kind: u32, data: seq<byte>)
    requires n + 1 < |views| && n < |events|
    ensures LastCopied(views, events, n + 1, kind, data) <==>
            || Brings(views, events, n, kind, data)
            || (Quiet(views, events, n, kind) && LastCopied(views, events, n, kind, data))
  {
    assert Undisturbed(views, events, n, n + 1, kind);
    forall k: int | -1 <= k < n
      ensures Undisturbed(views, events, k, n + 1, kind) <==>
              Quiet(views, events, n, kind) && Undisturbed(views, events, k, n, kind)
    {
    }
  }
}
