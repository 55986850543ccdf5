/** Ownership of the swapchain buffers: round-robin acquisition, consumer
    release, quarantine of abandoned buffers, and the buffer age handed to the
    renderer. */
module OutputQueue {
  const MAX_BUFFERS := 3
  const UINT_MAX := 0xFFFF_FFFF

  datatype Slot = Slot(
    acquired: bool,
    abandoned: bool,
    pendingClients: set<nat>,
    releaseWait: nat,
    lastFrame: nat,
    lastSeq: nat)

  const FREE_SLOT := Slot(false, false, {}, 0, 0, 0)

  predicate Free(s: Slot) {
    !s.acquired && !s.abandoned && s.pendingClients == {}
  }

  /** How many published frames old a buffer's content is; 0 for never. */
  function Age(frame: nat, s: Slot): nat {
    if s.lastFrame == 0 || frame < s.lastFrame then 0
    else if frame - s.lastFrame + 1 > UINT_MAX then UINT_MAX
    else frame - s.lastFrame + 1
  }

  /** The `t`-th buffer tried from the cursor; with one candidate, buffer 0. */
  function Probe(cursor: nat, t: nat, n: nat): nat
    requires 0 < n
  {
    (cursor + t) % n
  }

  /** The first free one of `n` buffers from where the rotation stands, which goes on
      behind it. */
  ghost predicate NextInTurn(slots: seq<Slot>, from: nat, n: nat, index: nat, to: nat)
    requires 0 < n <= |slots|
  {
    to == (index + 1) % n &&
    exists t: nat ::
      && t < n && index == Probe(from, t, n)
      && Free(slots[Probe(from, t, n)]) && forall u: nat :: u < t ==> !Free(slots[Probe(from, u, n)])
  }

  /** While every buffer is free, they are handed out in turn. */
  lemma TurnsRound(slots: seq<Slot>, from: nat, n: nat, index: nat, to: nat)
    requires 0 < n <= MAX_BUFFERS && n <= |slots| && NextInTurn(slots, from, n, index, to)
    requires forall k :: 0 <= k < n ==> !slots[k].acquired && !slots[k].abandoned && slots[k].pendingClients == {}
    ensures index == from % n && to == (from + 1) % n
  {
    assert Free(slots[Probe(from, 0, n)]);
    assert n == 1 || n == 2 || n == 3;
  }

  class Queue {
    const slots: array<Slot>
    var count: nat
    var cursor: nat
    var frame: nat

    ghost predicate Valid()
      reads this, slots
    {
      && slots.Length == MAX_BUFFERS
      && count <= MAX_BUFFERS
      && (forall k :: 0 <= k < MAX_BUFFERS ==> slots[k].lastFrame <= frame)
      // a published frame lives in one buffer only
      && (forall j, k :: 0 <= j < k < MAX_BUFFERS && slots[j].lastFrame > 0 ==> slots[j].lastFrame != slots[k].lastFrame)
    }

    constructor (count: nat)
      requires count <= MAX_BUFFERS
      ensures Valid() && fresh(slots)
      ensures this.count == count && frame == 0
      ensures forall k :: 0 <= k < MAX_BUFFERS ==> slots[k] == FREE_SLOT
    {
      slots := new Slot[MAX_BUFFERS](_ => FREE_SLOT);
      this.count, cursor, frame := count, 0, 0;
    }

    method Reset(count: nat)
      requires Valid() && count <= MAX_BUFFERS
      modifies this, slots
      ensures Valid() && this.count == count && frame == 0
      ensures forall k :: 0 <= k < MAX_BUFFERS ==> slots[k] == FREE_SLOT
    {
      forall k | 0 <= k < slots.Length {
        slots[k] := FREE_SLOT;
      }
      this.count, cursor, frame := count, 0, 0;
    }

    /** Take the next free buffer.  Without a rotating consumer only buffer 0 is
        ever used.  Fails exactly when every candidate is still owned. */
    method Acquire(rotate: bool) returns (ok: bool, index: nat, age: nat, wait: nat)
      requires Valid()
      modifies this`cursor, slots
      ensures Valid()
      ensures ok ==> index < count && (rotate || index == 0) && old(Free(slots[index]))
      ensures ok ==> age == Age(frame, old(slots[index])) && wait == old(slots[index].releaseWait)
      ensures ok ==> age == if old(slots[index]).lastFrame == 0 then 0
                            else if frame - old(slots[index]).lastFrame >= 4294967295 then 4294967295
                            else frame - old(slots[index]).lastFrame + 1
      ensures ok ==> slots[index] == old(slots[index]).(acquired := true, releaseWait := 0)
      ensures !ok ==> forall k :: 0 <= k < (if rotate || count == 0 then count else 1) ==> !old(Free(slots[k]))
      ensures forall k :: 0 <= k < MAX_BUFFERS && !(ok && k == index) ==> slots[k] == old(slots[k])
      ensures if !ok then cursor == old(cursor)
              else NextInTurn(old(slots[..]), old(cursor), if rotate then count else 1, index, cursor)
    {
      ok, index, age, wait := false, 0, 0, 0;
      if count == 0 {
        return;
      }
      var n := if rotate then count else 1;
      var tried := 0;
      while tried < n
        invariant 0 <= tried <= n
        invariant forall t :: 0 <= t < tried ==> !Free(slots[Probe(cursor, t, n)])
      {
        var i := (cursor + tried) % n;
        var slot := slots[i];
        if Free(slot) {
          slots[i] := slot.(acquired := true, releaseWait := 0);
          assert i == Probe(cursor, tried, n);
          cursor := (i + 1) % n;
          ok, index, wait := true, i, slot.releaseWait;
          age := Age(frame, slot);
          return;
        }
        assert i == Probe(cursor, tried, n);
        tried := tried + 1;
      }
      forall k | 0 <= k < n ensures !Free(slots[k]) {
        var t := Turn(cursor, k, n);
        assert Probe(cursor, t, n) == k;
      }
    }

    lemma Turn(from: nat, k: nat, n: nat) returns (t: nat)
      requires 0 < n <= MAX_BUFFERS && k < n
      ensures t < n && (from + t) % n == k
    {
      if n == 1 {
        t := 0;
      } else {
        t := (k + n - from % n) % n;
      }
    }

    method Cancel(index: nat)
      requires Valid()
      modifies slots
      ensures Valid()
      ensures forall k :: 0 <= k < MAX_BUFFERS ==>
                          slots[k] == if k == index && index < count then old(slots[k]).(acquired := false) else old(slots[k])
    {
      if index < count {
        slots[index] := slots[index].(acquired := false);
      }
    }

    method Publish(index: nat, pendingClients: set<nat>, seqno: nat)
      requires Valid() && index < count
      modifies this`frame, slots
      ensures Valid() && frame == old(frame) + 1
      ensures slots[index] == old(slots[index]).(acquired := false, abandoned := false,
                                                 pendingClients := pendingClients, lastSeq := seqno, lastFrame := frame)
      ensures forall k :: 0 <= k < MAX_BUFFERS && k != index ==> slots[k] == old(slots[k])
    {
      frame := frame + 1;
      slots[index] := slots[index].(acquired := false, abandoned := false,
                                    pendingClients := pendingClients, lastSeq := seqno, lastFrame := frame);
    }

    /** Only the exact generation still owned by this consumer is released. */
    method Release(index: nat, client: nat, seqno: nat) returns (ok: bool)
      requires Valid()
      modifies slots
      ensures Valid()
      ensures ok <==>
              && index < count && seqno != 0
              && client in old(slots[index].pendingClients) && old(slots[index].lastSeq) == seqno
      ensures forall k :: 0 <= k < MAX_BUFFERS ==>
                          slots[k] == if ok && k == index
                                      then old(slots[k]).(pendingClients := old(slots[k]).pendingClients - {client},
                                                          releaseWait := if seqno > old(slots[k]).releaseWait then seqno
                                                                         else old(slots[k]).releaseWait)
                                      else old(slots[k])
    {
      if index >= count || seqno == 0 || client !in slots[index].pendingClients || slots[index].lastSeq != seqno {
        return false;
      }
      var s := slots[index];
      slots[index] := s.(pendingClients := s.pendingClients - {client},
                         releaseWait := if seqno > s.releaseWait then seqno else s.releaseWait);
      return true;
    }

    /** A disconnected consumer's buffers are quarantined, not freed. */
    method DropClient(client: nat)
      requires Valid()
      modifies slots
      ensures Valid()
      ensures forall k :: 0 <= k < MAX_BUFFERS ==>
                          slots[k] == if k < count && client in old(slots[k]).pendingClients
                                      then old(slots[k]).(abandoned := true,
                                                          pendingClients := old(slots[k]).pendingClients - {client})
                                      else old(slots[k])
    {
      var k := 0;
      while k < count
        invariant 0 <= k <= count
        invariant Valid()
        invariant forall i :: 0 <= i < MAX_BUFFERS ==>
                              slots[i] == if i < k && client in old(slots[i]).pendingClients
                                          then old(slots[i]).(abandoned := true,
                                                              pendingClients := old(slots[i]).pendingClients - {client})
                                          else old(slots[i])
      {
        if client in slots[k].pendingClients {
          slots[k] := slots[k].(abandoned := true, pendingClients := slots[k].pendingClients - {client});
        }
        k := k + 1;
      }
    }

    method RecoverAbandoned()
      requires Valid()
      modifies slots
      ensures Valid()
      ensures forall k :: 0 <= k < MAX_BUFFERS ==>
                          slots[k] == if k < count then old(slots[k]).(abandoned := false) else old(slots[k])
    {
      forall k | 0 <= k < count {
        slots[k] := slots[k].(abandoned := false);
      }
    }
  }
}
