/** `wp_presentation` feedback: per-surface lists, batches waiting for the app to
    present them, and the answers sent. */
module Presentation {
  const U32 := 0x1_0000_0000
  const TIMEOUT_MS := 100

  datatype Feedback = Feedback(id: nat, owner: nat)

  datatype Answer = Presented(fb: Feedback, count: nat) | Discarded(fb: Feedback)

  /** `started` is the publishing time in ms; the program stores it modulo 2^32. */
  datatype Batch = Batch(generation: nat, started: nat, feedbacks: seq<Feedback>)

  datatype Waiting = Waiting(surface: nat, feedbacks: seq<Feedback>)

  // ---- contents ---------------------------------------------------------------------------------

  function Answered(answers: seq<Answer>): seq<Feedback> {
    seq(|answers|, i requires 0 <= i < |answers| => answers[i].fb)
  }

  function Batched(batches: seq<Batch>): seq<Feedback> {
    if batches == [] then [] else batches[0].feedbacks + Batched(batches[1..])
  }

  function Listed(surfaces: seq<Waiting>): seq<Feedback> {
    if surfaces == [] then [] else surfaces[0].feedbacks + Listed(surfaces[1..])
  }

  /** A surface's own feedbacks, in order. */
  function Of(s: nat, fbs: seq<Feedback>): seq<Feedback> {
    if fbs == [] then []
    else (if fbs[0].owner == s then [fbs[0]] else []) + Of(s, fbs[1..])
  }

  function Except(f: Feedback, fbs: seq<Feedback>): seq<Feedback> {
    if fbs == [] then []
    else (if fbs[0] == f then [] else [fbs[0]]) + Except(f, fbs[1..])
  }

  lemma Associative<T>(x: seq<T>, y: seq<T>, z: seq<T>)
    ensures x + y + z == x + (y + z)
  {
  }

  lemma {:induction false} OfConcat(s: nat, a: seq<Feedback>, b: seq<Feedback>)
    ensures Of(s, a + b) == Of(s, a) + Of(s, b)
  {
    if a == [] {
      assert a + b == b;
    } else {
      OfConcat(s, a[1..], b);
      assert (a + b)[1..] == a[1..] + b;
      assert (a + b)[0] == a[0];
      Associative((if a[0].owner == s then [a[0]] else []), Of(s, a[1..]), Of(s, b));
    }
  }

  lemma {:induction false} OfNone(s: nat, fbs: seq<Feedback>)
    requires forall f :: f in fbs ==> f.owner != s
    ensures Of(s, fbs) == []
  {
    if fbs != [] {
      assert fbs[0] in fbs;
      OfNone(s, fbs[1..]);
    }
  }

  lemma {:induction false} ExceptConcat(f: Feedback, a: seq<Feedback>, b: seq<Feedback>)
    ensures Except(f, a + b) == Except(f, a) + Except(f, b)
  {
    if a == [] {
      assert a + b == b;
    } else {
      ExceptConcat(f, a[1..], b);
      assert (a + b)[1..] == a[1..] + b;
      assert (a + b)[0] == a[0];
      Associative((if a[0] == f then [] else [a[0]]), Except(f, a[1..]), Except(f, b));
    }
  }

  lemma {:induction false} ExceptNone(f: Feedback, a: seq<Feedback>)
    requires f !in a
    ensures Except(f, a) == a
  {
    if a != [] {
      ExceptNone(f, a[1..]);
    }
  }

  lemma {:induction false} ExceptOf(f: Feedback, s: nat, a: seq<Feedback>)
    ensures Of(s, Except(f, a)) == Except(f, Of(s, a))
  {
    if a != [] {
      var head, tail := a[0], a[1..];
      ExceptOf(f, s, tail);
      OfConcat(s, if head == f then [] else [head], Except(f, tail));
      ExceptConcat(f, if head.owner == s then [head] else [], Of(s, tail));
    }
  }

  lemma {:induction false} ExceptCount(f: Feedback, a: seq<Feedback>)
    ensures multiset(Except(f, a)) == multiset(a)[f := 0]
    ensures forall g :: g in Except(f, a) ==> g in a
  {
    if a != [] {
      assert a == [a[0]] + a[1..];
      ExceptCount(f, a[1..]);
    }
  }

  lemma {:induction false} BatchedConcat(a: seq<Batch>, b: seq<Batch>)
    ensures Batched(a + b) == Batched(a) + Batched(b)
  {
    if a == [] {
      assert a + b == b;
    } else {
      BatchedConcat(a[1..], b);
      assert (a + b)[1..] == a[1..] + b;
      assert (a + b)[0] == a[0];
      Associative(a[0].feedbacks, Batched(a[1..]), Batched(b));
    }
  }

  lemma {:induction false} ListedConcat(a: seq<Waiting>, b: seq<Waiting>)
    ensures Listed(a + b) == Listed(a) + Listed(b)
  {
    if a == [] {
      assert a + b == b;
    } else {
      ListedConcat(a[1..], b);
      assert (a + b)[1..] == a[1..] + b;
      assert (a + b)[0] == a[0];
      Associative(a[0].feedbacks, Listed(a[1..]), Listed(b));
    }
  }

  lemma ListedStep(ws: seq<Waiting>, i: nat)
    requires i < |ws|
    ensures Listed(ws[..i + 1]) == Listed(ws[..i]) + ws[i].feedbacks
  {
    ListedConcat(ws[..i], [ws[i]]);
    assert ws[..i + 1] == ws[..i] + [ws[i]];
    assert Listed([ws[i]]) == ws[i].feedbacks;
  }

  // ---- invariants -----------------------------------------------------------------------------------

  ghost predicate Distinct(fbs: seq<Feedback>) {
    forall f :: multiset(fbs)[f] <= 1
  }

  /** Every surface once, holding only its own feedbacks. */
  ghost predicate OwnLists(surfaces: seq<Waiting>) {
    && (forall i, j :: 0 <= i < j < |surfaces| ==> surfaces[i].surface != surfaces[j].surface)
    && forall i, f :: 0 <= i < |surfaces| && f in surfaces[i].feedbacks ==> f.owner == surfaces[i].surface
  }

  predicate Live(surfaces: seq<Waiting>, s: nat) {
    exists i :: 0 <= i < |surfaces| && surfaces[i].surface == s
  }

  /** Older batches first, none from the future. */
  ghost predicate Aged(batches: seq<Batch>, generation: nat, clock: nat) {
    && (forall i, j :: 0 <= i < j < |batches| ==>
                       batches[i].generation <= batches[j].generation && batches[i].started <= batches[j].started)
    && forall i :: 0 <= i < |batches| ==> batches[i].generation <= generation && batches[i].started <= clock
  }

  /** The presentation counter never goes back. */
  ghost predicate Counted(answers: seq<Answer>, count: nat) {
    && (forall i :: 0 <= i < |answers| && answers[i].Presented? ==> answers[i].count <= count)
    && forall i, j :: 0 <= i < j < |answers| && answers[i].Presented? && answers[j].Presented? ==>
                      answers[i].count <= answers[j].count
  }

  /** What was asked for is in exactly one place, and each live surface's
      feedbacks go through the places in the order they were asked for. */
  ghost predicate Conserved(all: seq<Feedback>, requested: seq<Feedback>, surfaces: seq<Waiting>) {
    && Distinct(requested) && multiset(all) == multiset(requested)
    && forall s :: Live(surfaces, s) ==> Of(s, all) == Of(s, requested)
  }

  /** The two ways a batch becomes due, as the program computes them on 32-bit
      milliseconds. */
  predicate Due(b: Batch, presented: nat, now: nat) {
    presented >= b.generation || (now % U32 - b.started % U32) % U32 >= TIMEOUT_MS
  }

  /** What the two ways are meant to say. */
  predicate Intended(b: Batch, presented: nat, now: nat) {
    presented >= b.generation || now - b.started >= TIMEOUT_MS
  }

  /** Old enough, but within 100 ms after a multiple of 2^32 ms looking young. */
  predicate Hidden(b: Batch, presented: nat, now: nat) {
    presented < b.generation && now - b.started >= TIMEOUT_MS && (now - b.started) % U32 < TIMEOUT_MS
  }

  /** A batch that is due is meant to be, and one that is meant to be is due exactly
      when its age is not hidden. */
  lemma DueExactly(b: Batch, presented: nat, now: nat)
    requires b.started <= now
    ensures Due(b, presented, now) ==> Intended(b, presented, now)
    ensures (Due(b, presented, now) <==> Intended(b, presented, now)) <==> !Hidden(b, presented, now)
  {
    var d := now - b.started;
    assert (now % U32 - b.started % U32) % U32 == d % U32 by {
      assert now % U32 - b.started % U32 == d - U32 * (now / U32 - b.started / U32);
    }
  }

  /** Older batches are meant to be due whenever a younger one is. */
  lemma IntendedFirst(batches: seq<Batch>, presented: nat, generation: nat, now: nat, i: nat, j: nat)
    requires Aged(batches, generation, now) && i <= j < |batches| && Intended(batches[j], presented, now)
    ensures Intended(batches[i], presented, now)
  {
  }

  /** The `k` oldest are answered, up to the first that is not due.  Those are all
      meant to be, and no others are, exactly when no batch's age is hidden. */
  lemma DueSplit(batches: seq<Batch>, presented: nat, generation: nat, now: nat, k: nat)
    requires Aged(batches, generation, now) && k <= |batches|
    requires forall i :: 0 <= i < k ==> Due(batches[i], presented, now)
    requires k < |batches| ==> !Due(batches[k], presented, now)
    ensures forall i :: 0 <= i < k ==> Intended(batches[i], presented, now)
    ensures (forall i :: 0 <= i < |batches| ==> (i < k <==> Intended(batches[i], presented, now)))
            <==> forall i :: 0 <= i < |batches| ==> !Hidden(batches[i], presented, now)
  {
    forall i | 0 <= i < |batches|
      ensures Due(batches[i], presented, now) ==> Intended(batches[i], presented, now)
      ensures (Due(batches[i], presented, now) <==> Intended(batches[i], presented, now)) <==>
              !Hidden(batches[i], presented, now)
    {
      DueExactly(batches[i], presented, now);
    }
    if k < |batches| && !Hidden(batches[k], presented, now) {
      forall i | k <= i < |batches|
        ensures !Intended(batches[i], presented, now)
      {
        if Intended(batches[i], presented, now) {
          IntendedFirst(batches, presented, generation, now, k, i);
        }
      }
    }
  }

  // ---- how the places change -----------------------------------------------------------------------

  function Emptied(surfaces: seq<Waiting>): seq<Waiting> {
    seq(|surfaces|, i requires 0 <= i < |surfaces| => surfaces[i].(feedbacks := []))
  }

  lemma {:induction false} EmptiedListed(surfaces: seq<Waiting>)
    ensures Listed(Emptied(surfaces)) == []
  {
    if surfaces != [] {
      EmptiedListed(surfaces[1..]);
      assert Emptied(surfaces)[1..] == Emptied(surfaces[1..]);
    }
  }

  function BatchesExcept(f: Feedback, batches: seq<Batch>): seq<Batch> {
    seq(|batches|, i requires 0 <= i < |batches| => batches[i].(feedbacks := Except(f, batches[i].feedbacks)))
  }

  lemma {:induction false} BatchedExcept(f: Feedback, batches: seq<Batch>)
    ensures Batched(BatchesExcept(f, batches)) == Except(f, Batched(batches))
  {
    if batches != [] {
      BatchedExcept(f, batches[1..]);
      assert BatchesExcept(f, batches)[1..] == BatchesExcept(f, batches[1..]);
      ExceptConcat(f, batches[0].feedbacks, Batched(batches[1..]));
    }
  }

  function ListsExcept(f: Feedback, surfaces: seq<Waiting>): seq<Waiting> {
    seq(|surfaces|, i requires 0 <= i < |surfaces| => surfaces[i].(feedbacks := Except(f, surfaces[i].feedbacks)))
  }

  lemma {:induction false} ListedExcept(f: Feedback, surfaces: seq<Waiting>)
    ensures Listed(ListsExcept(f, surfaces)) == Except(f, Listed(surfaces))
  {
    if surfaces != [] {
      ListedExcept(f, surfaces[1..]);
      assert ListsExcept(f, surfaces)[1..] == ListsExcept(f, surfaces[1..]);
      ExceptConcat(f, surfaces[0].feedbacks, Listed(surfaces[1..]));
    }
  }

  lemma {:induction false} ListedOwners(surfaces: seq<Waiting>, f: Feedback)
    requires f in Listed(surfaces)
    ensures exists i :: 0 <= i < |surfaces| && f in surfaces[i].feedbacks
  {
    if f !in surfaces[0].feedbacks {
      ListedOwners(surfaces[1..], f);
      var i :| 0 <= i < |surfaces[1..]| && f in surfaces[1..][i].feedbacks;
      assert f in surfaces[i + 1].feedbacks;
    }
  }

  /** The list of the surface at `i` between the others'. */
  lemma ListedSplit(surfaces: seq<Waiting>, i: nat)
    requires i < |surfaces|
    ensures Listed(surfaces) == Listed(surfaces[..i]) + surfaces[i].feedbacks + Listed(surfaces[i + 1..])
  {
    assert surfaces == surfaces[..i + 1] + surfaces[i + 1..];
    ListedConcat(surfaces[..i + 1], surfaces[i + 1..]);
    ListedStep(surfaces, i);
  }

  /** Other surfaces hold nothing of `surfaces[i]`'s. */
  lemma OthersNone(surfaces: seq<Waiting>, i: nat)
    requires OwnLists(surfaces) && i < |surfaces|
    ensures Of(surfaces[i].surface, Listed(surfaces[..i])) == []
    ensures Of(surfaces[i].surface, Listed(surfaces[i + 1..])) == []
  {
    forall f | f in Listed(surfaces[..i])
      ensures f.owner != surfaces[i].surface
    {
      ListedOwners(surfaces[..i], f);
    }
    forall f | f in Listed(surfaces[i + 1..])
      ensures f.owner != surfaces[i].surface
    {
      ListedOwners(surfaces[i + 1..], f);
      var k :| 0 <= k < |surfaces[i + 1..]| && f in surfaces[i + 1..][k].feedbacks;
      assert surfaces[i + 1..][k] == surfaces[i + 1 + k];
    }
    OfNone(surfaces[i].surface, Listed(surfaces[..i]));
    OfNone(surfaces[i].surface, Listed(surfaces[i + 1..]));
  }

  function All(answers: seq<Answer>, batches: seq<Batch>, surfaces: seq<Waiting>): seq<Feedback> {
    Answered(answers) + Batched(batches) + Listed(surfaces)
  }

  function Appended(surfaces: seq<Waiting>, i: nat, f: Feedback): seq<Waiting>
    requires i < |surfaces|
  {
    surfaces[i := surfaces[i].(feedbacks := surfaces[i].feedbacks + [f])]
  }

  lemma AppendedOwn(surfaces: seq<Waiting>, i: nat, f: Feedback)
    requires OwnLists(surfaces) && i < |surfaces| && f.owner == surfaces[i].surface
    ensures OwnLists(Appended(surfaces, i, f))
    ensures forall s :: Live(Appended(surfaces, i, f), s) ==> Live(surfaces, s)
  {
    var w := Appended(surfaces, i, f);
    assert forall k :: 0 <= k < |w| ==> w[k].surface == surfaces[k].surface;
  }

  lemma AppendedListed(a: seq<Feedback>, surfaces: seq<Waiting>, i: nat, f: Feedback)
    requires i < |surfaces|
    ensures var front, back := a + Listed(surfaces[..i]) + surfaces[i].feedbacks, Listed(surfaces[i + 1..]);
            a + Listed(surfaces) == front + back && a + Listed(Appended(surfaces, i, f)) == front + [f] + back
  {
    var w := Appended(surfaces, i, f);
    ListedSplit(surfaces, i);
    ListedSplit(w, i);
    assert w[..i] == surfaces[..i] && w[i + 1..] == surfaces[i + 1..];
    Regroup(a, Listed(surfaces[..i]), surfaces[i].feedbacks, f, Listed(surfaces[i + 1..]));
  }

  lemma Regroup(a: seq<Feedback>, x: seq<Feedback>, y: seq<Feedback>, f: Feedback, z: seq<Feedback>)
    ensures a + (x + y + z) == a + x + y + z
    ensures a + (x + (y + [f]) + z) == a + x + y + [f] + z
  {
  }

  /** A new feedback goes to the end of its surface's list, so it comes last
      among its surface's and leaves the others' order alone. */
  lemma RequestConserves(a: seq<Feedback>, surfaces: seq<Waiting>, requested: seq<Feedback>, i: nat, f: Feedback)
    requires OwnLists(surfaces) && i < |surfaces| && f.owner == surfaces[i].surface && f !in requested
    requires Conserved(a + Listed(surfaces), requested, surfaces)
    ensures var w := Appended(surfaces, i, f);
            OwnLists(w) && Conserved(a + Listed(w), requested + [f], w)
  {
    var w, all := Appended(surfaces, i, f), a + Listed(surfaces);
    var front, back := a + Listed(surfaces[..i]) + surfaces[i].feedbacks, Listed(surfaces[i + 1..]);
    AppendedListed(a, surfaces, i, f);
    AppendedOwn(surfaces, i, f);
    OthersNone(surfaces, i);
    InsertConserves(front, back, requested, f, surfaces, w);
  }

  lemma InsertConserves(front: seq<Feedback>, back: seq<Feedback>, requested: seq<Feedback>, f: Feedback,
                        surfaces: seq<Waiting>, w: seq<Waiting>)
    requires Conserved(front + back, requested, surfaces) && f !in requested && Of(f.owner, back) == []
    requires forall s :: Live(w, s) ==> Live(surfaces, s)
    ensures Conserved(front + [f] + back, requested + [f], w)
  {
    forall s | Live(w, s)
      ensures Of(s, front + [f] + back) == Of(s, requested + [f])
    {
      OfInserted(s, front, f, back);
      OfConcat(s, requested, [f]);
    }
    assert multiset(requested)[f] == 0;
  }

  lemma OfInserted(s: nat, front: seq<Feedback>, f: Feedback, back: seq<Feedback>)
    requires Of(f.owner, back) == []
    ensures Of(s, front + [f] + back) == Of(s, front + back) + Of(s, [f])
  {
    OfConcat(s, front, back);
    OfConcat(s, front + [f], back);
    OfConcat(s, front, [f]);
    var one := Of(s, [f]);
    if s == f.owner {
      assert Of(s, back) == [];
    } else {
      assert Of(s, [f][1..]) == [];
      assert one == [];
    }
    Swap(Of(s, front), one, Of(s, back));
  }

  lemma Swap(a: seq<Feedback>, x: seq<Feedback>, y: seq<Feedback>)
    requires x == [] || y == []
    ensures a + x + y == a + y + x
  {
  }

  /** Discarding a destroyed surface's list reorders nobody else. */
  lemma DiscardConserves(a: seq<Feedback>, b: seq<Feedback>, surfaces: seq<Waiting>, requested: seq<Feedback>, i: nat)
    requires OwnLists(surfaces) && i < |surfaces|
    requires Conserved(a + b + Listed(surfaces), requested, surfaces)
    ensures var w := surfaces[..i] + surfaces[i + 1..];
            OwnLists(w) && Conserved(a + surfaces[i].feedbacks + b + Listed(w), requested, w)
  {
    var w := surfaces[..i] + surfaces[i + 1..];
    var gone, front, back := surfaces[i].feedbacks, Listed(surfaces[..i]), Listed(surfaces[i + 1..]);
    ListedSplit(surfaces, i);
    ListedConcat(surfaces[..i], surfaces[i + 1..]);
    RemovedOwn(surfaces, i);
    SameMultiset(a, gone, b, front, back);
    forall s | Live(w, s)
      ensures Of(s, a + gone + b + Listed(w)) == Of(s, requested)
    {
      OfNone(s, gone);
      OfMoved(s, a, gone, b, front, back);
    }
  }

  lemma SameMultiset(a: seq<Feedback>, gone: seq<Feedback>, b: seq<Feedback>, front: seq<Feedback>, back: seq<Feedback>)
    ensures multiset(a + gone + b + (front + back)) == multiset(a + b + (front + gone + back))
  {
  }

  /** Without one surface the others keep their lists, and are none of its. */
  lemma RemovedOwn(surfaces: seq<Waiting>, i: nat)
    requires OwnLists(surfaces) && i < |surfaces|
    ensures var w := surfaces[..i] + surfaces[i + 1..];
            OwnLists(w) && forall s :: Live(w, s) ==> Live(surfaces, s) && s != surfaces[i].surface
  {
    var w := surfaces[..i] + surfaces[i + 1..];
    assert forall k :: 0 <= k < |w| ==> w[k] == surfaces[if k < i then k else k + 1];
    forall s | Live(w, s)
      ensures Live(surfaces, s) && s != surfaces[i].surface
    {
      var k :| 0 <= k < |w| && w[k].surface == s;
      assert surfaces[if k < i then k else k + 1].surface == s;
    }
  }

  lemma OfMoved(s: nat, a: seq<Feedback>, gone: seq<Feedback>, b: seq<Feedback>, front: seq<Feedback>,
                back: seq<Feedback>)
    requires Of(s, gone) == []
    ensures Of(s, a + gone + b + (front + back)) == Of(s, a + b + (front + gone + back))
  {
    OfConcat(s, a + gone + b, front + back);
    OfSkip(s, a, gone, b);
    OfConcat(s, a + b, front + gone + back);
    OfConcat(s, a, b);
    OfConcat(s, front, back);
    OfSkip(s, front, gone, back);
  }

  lemma OfSkip(s: nat, a: seq<Feedback>, gone: seq<Feedback>, b: seq<Feedback>)
    requires Of(s, gone) == []
    ensures Of(s, a + gone + b) == Of(s, a) + Of(s, b)
  {
    OfConcat(s, a + gone, b);
    OfConcat(s, a, gone);
    assert Of(s, a) + [] == Of(s, a);
  }

  lemma ListsExceptOwn(f: Feedback, surfaces: seq<Waiting>)
    requires OwnLists(surfaces)
    ensures OwnLists(ListsExcept(f, surfaces))
    ensures forall s :: Live(ListsExcept(f, surfaces), s) ==> Live(surfaces, s)
  {
    var w := ListsExcept(f, surfaces);
    assert forall k :: 0 <= k < |w| ==> w[k].surface == surfaces[k].surface;
    forall i, g | 0 <= i < |w| && g in w[i].feedbacks
      ensures g.owner == w[i].surface
    {
      ExceptCount(f, surfaces[i].feedbacks);
    }
  }

  lemma AllExcept(answers: seq<Answer>, batches: seq<Batch>, surfaces: seq<Waiting>, f: Feedback)
    requires f !in Answered(answers)
    ensures All(answers, BatchesExcept(f, batches), ListsExcept(f, surfaces)) == Except(f, All(answers, batches, surfaces))
  {
    BatchedExcept(f, batches);
    ListedExcept(f, surfaces);
    ExceptNone(f, Answered(answers));
    ExceptConcat(f, Answered(answers), Batched(batches));
    ExceptConcat(f, Answered(answers) + Batched(batches), Listed(surfaces));
  }

  /** A feedback that its client took back disappears from where it was. */
  lemma DropConserves(answers: seq<Answer>, batches: seq<Batch>, surfaces: seq<Waiting>, requested: seq<Feedback>,
                      f: Feedback)
    requires OwnLists(surfaces) && Conserved(All(answers, batches, surfaces), requested, surfaces)
    requires f !in Answered(answers)
    ensures var w := ListsExcept(f, surfaces);
            OwnLists(w) && Conserved(All(answers, BatchesExcept(f, batches), w), Except(f, requested), w)
  {
    var all := All(answers, batches, surfaces);
    AllExcept(answers, batches, surfaces, f);
    ListsExceptOwn(f, surfaces);
    ExceptCount(f, all);
    ExceptCount(f, requested);
    forall s | Live(surfaces, s)
      ensures Of(s, Except(f, all)) == Of(s, Except(f, requested))
    {
      ExceptOf(f, s, all);
      ExceptOf(f, s, requested);
    }
  }
}
