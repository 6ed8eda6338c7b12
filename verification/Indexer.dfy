/** The analytics indexer: a mutex-guarded queue, flushes that may overlap, and re-enqueueing on failure. */
module Indexer {

  /** One "index" action of a bulk request. */
  datatype BulkOp<Doc> = BulkOp(index: string, id: string, doc: Doc)

  type Key = (string, string)

  const MAX_BATCH := 500
  const MAX_BATCH_RETRY_CAP := 50000

  function KeyOf<Doc>(op: BulkOp<Doc>): Key {
    (op.index, op.id)
  }

  /** The search index after applying operations in order: the last write per id wins. */
  function Applied<Doc>(index: map<Key, Doc>, ops: seq<BulkOp<Doc>>): map<Key, Doc> {
    if ops == [] then index
    else Applied(index, ops[..|ops| - 1])[KeyOf(ops[|ops| - 1]) := ops[|ops| - 1].doc]
  }

  /** What a bulk request that reports an error may have applied: any of its operations, in order. */
  function Chosen<Doc>(ops: seq<BulkOp<Doc>>, chosen: seq<bool>): seq<BulkOp<Doc>>
    requires |chosen| == |ops|
  {
    if ops == [] then []
    else
      var init := Chosen(ops[..|ops| - 1], chosen[..|ops| - 1]);
      if chosen[|ops| - 1] then init + [ops[|ops| - 1]] else init
  }

  predicate Mentions<Doc>(ops: seq<BulkOp<Doc>>, k: Key) {
    exists i | 0 <= i < |ops| :: KeyOf(ops[i]) == k
  }

  // ---------- the indexer ----------

  /** Puts a failed batch back at the head, unless the queue would exceed the cap. */
  function Requeued<Doc>(queue: seq<BulkOp<Doc>>, batch: seq<BulkOp<Doc>>): seq<BulkOp<Doc>> {
    if |queue| + |batch| <= MAX_BATCH_RETRY_CAP then batch + queue else queue
  }

  class Queue<Doc> {
    var queue: seq<BulkOp<Doc>>

    constructor ()
      ensures queue == []
    {
      queue := [];
    }

    method Enqueue(op: BulkOp<Doc>)
      modifies this
      ensures queue == old(queue) + [op]
    {
      queue := queue + [op];
    }

    method Length() returns (n: nat)
      ensures n == |queue|
    {
      n := |queue|;
    }

    /** The first critical section of flush: takes the whole queue. */
    method TakeBatch() returns (batch: seq<BulkOp<Doc>>)
      modifies this
      ensures batch == old(queue) && queue == []
    {
      batch := queue;
      queue := [];
    }

    /** The second critical section of a failed flush. */
    method Requeue(batch: seq<BulkOp<Doc>>)
      modifies this
      ensures queue == Requeued(old(queue), batch)
      ensures queue == if |old(queue)| + |batch| <= 50_000 then batch + old(queue) else old(queue)
    {
      if |queue| + |batch| <= MAX_BATCH_RETRY_CAP {
        queue := batch + queue;
      }
    }

    /** A flush that nothing interleaves with; `delivered` says whether Bulk succeeds. */
    method Flush(delivered: bool) returns (sent: seq<BulkOp<Doc>>)
      modifies this
      ensures sent == old(queue)
      ensures queue == if delivered || |old(queue)| > 50_000 then [] else old(queue)
    {
      sent := TakeBatch();
      if sent != [] && !delivered {
        Requeue(sent);
      }
    }

    /** The batching part of Handle: enqueue, then flush once the batch is full. */
    method Handle(op: BulkOp<Doc>, delivered: bool) returns (sent: seq<BulkOp<Doc>>)
      modifies this
      ensures sent == if |old(queue)| + 1 >= 500 then old(queue) + [op] else []
      ensures delivered || |old(queue)| + 1 < 500 ==> sent + queue == old(queue) + [op]
      ensures !delivered && |old(queue)| + 1 <= 50_000 ==> queue == old(queue) + [op]
    {
      Enqueue(op);
      var n := Length();
      sent := [];
      if n >= MAX_BATCH {
        sent := Flush(delivered);
      }
    }
  }

  // ---------- every interleaving ----------

  /** `flights` holds the batches whose Bulk call has not returned yet; `log`, `delivered` and `dropped` remember
      what was enqueued, accepted and given up. */
  datatype State<Doc> = State(
    queue: seq<BulkOp<Doc>>, flights: seq<seq<BulkOp<Doc>>>, index: map<Key, Doc>,
    log: seq<BulkOp<Doc>>, delivered: seq<BulkOp<Doc>>, dropped: seq<BulkOp<Doc>>)

  function Init<Doc>(): State<Doc> {
    State([], [], map[], [], [], [])
  }

  datatype Step<Doc> =
    | Add(op: BulkOp<Doc>)
    | Take
    | Succeed(flight: nat)
    | FailBulk(flight: nat, chosen: seq<bool>)

  predicate Enabled<Doc>(s: State<Doc>, step: Step<Doc>) {
    match step
    case Add(_) => true
    case Take => s.queue != []
    case Succeed(f) => f < |s.flights|
    case FailBulk(f, chosen) => f < |s.flights| && |chosen| == |s.flights[f]|
  }

  function Apply<Doc>(s: State<Doc>, step: Step<Doc>): State<Doc>
    requires Enabled(s, step)
  {
    match step
    case Add(op) => s.(queue := s.queue + [op], log := s.log + [op])
    case Take => s.(queue := [], flights := s.flights + [s.queue])
    case Succeed(f) =>
      s.(flights := s.flights[..f] + s.flights[f + 1..], index := Applied(s.index, s.flights[f]),
         delivered := s.delivered + s.flights[f])
    case FailBulk(f, chosen) =>
      var batch := s.flights[f];
      var s' := s.(flights := s.flights[..f] + s.flights[f + 1..], index := Applied(s.index, Chosen(batch, chosen)));
      if |s.queue| + |batch| <= MAX_BATCH_RETRY_CAP then s'.(queue := Requeued(s.queue, batch))
      else s'.(dropped := s.dropped + batch)
  }

  // ---------- conservation ----------

  ghost function InFlight<Doc>(flights: seq<seq<BulkOp<Doc>>>): multiset<BulkOp<Doc>> {
    if flights == [] then multiset{} else multiset(flights[0]) + InFlight(flights[1..])
  }

  /** Every enqueued document is in exactly one of: delivered, queued, in flight, dropped. */
  ghost predicate Conserved<Doc(!new)>(s: State<Doc>) {
    multiset(s.log) == multiset(s.queue) + InFlight(s.flights) + multiset(s.delivered) + multiset(s.dropped)
  }

  lemma {:induction false} InFlightAppend<Doc>(flights: seq<seq<BulkOp<Doc>>>, batch: seq<BulkOp<Doc>>)
    ensures InFlight(flights + [batch]) == InFlight(flights) + multiset(batch)
  {
    if flights == [] {
      assert flights + [batch] == [batch];
    } else {
      assert (flights + [batch])[1..] == flights[1..] + [batch];
      InFlightAppend(flights[1..], batch);
    }
  }

  lemma {:induction false} InFlightRemove<Doc>(flights: seq<seq<BulkOp<Doc>>>, f: nat)
    requires f < |flights|
    ensures InFlight(flights) == multiset(flights[f]) + InFlight(flights[..f] + flights[f + 1..])
  {
    if f == 0 {
      assert flights[..0] + flights[1..] == flights[1..];
    } else {
      var rest := flights[..f] + flights[f + 1..];
      assert rest[1..] == flights[1..][..f - 1] + flights[1..][f..];
      InFlightRemove(flights[1..], f - 1);
    }
  }

  lemma StepConserves<Doc(!new)>(s: State<Doc>, step: Step<Doc>)
    requires Conserved(s) && Enabled(s, step)
    ensures Conserved(Apply(s, step))
  {
    match step {
      case Add(op) =>
      case Take => InFlightAppend(s.flights, s.queue);
      case Succeed(f) => InFlightRemove(s.flights, f);
      case FailBulk(f, chosen) => FailureConserves(s, f, chosen);
    }
  }

  lemma FailureConserves<Doc(!new)>(s: State<Doc>, f: nat, chosen: seq<bool>)
    requires Conserved(s) && Enabled(s, FailBulk(f, chosen))
    ensures Conserved(Apply(s, FailBulk(f, chosen)))
  {
    var batch, rest := s.flights[f], s.flights[..f] + s.flights[f + 1..];
    InFlightRemove(s.flights, f);
    BothParts(s.dropped, batch);
    BothParts(batch, s.queue);
    var s' := Apply(s, FailBulk(f, chosen));
    assert s'.flights == rest && s'.log == s.log && s'.delivered == s.delivered;
    assert multiset(s'.queue) + multiset(s'.dropped) == multiset(s.queue) + multiset(s.dropped) + multiset(batch);
  }

  lemma BothParts<T>(a: seq<T>, b: seq<T>)
    ensures multiset(a + b) == multiset(a) + multiset(b)
  {
  }

  ghost predicate IsRun<Doc(!new)>(states: seq<State<Doc>>, steps: seq<Step<Doc>>) {
    && |states| == |steps| + 1 && states[0] == Init()
    && forall i | 0 <= i < |steps| :: Enabled(states[i], steps[i]) && states[i + 1] == Apply(states[i], steps[i])
  }

  /** A flush that nothing interrupts does what the Flush method does: it empties the queue, or puts it back. */
  lemma UninterruptedFlush<Doc(!new)>(s: State<Doc>, chosen: seq<bool>)
    requires s.queue != [] && s.flights == [] && |chosen| == |s.queue|
    ensures var taken := Apply(s, Take);
            && Apply(taken, Succeed(0)) ==
               s.(queue := [], index := Applied(s.index, s.queue), delivered := s.delivered + s.queue)
            && Apply(taken, FailBulk(0, chosen)) ==
               if |s.queue| <= 50_000 then s.(index := Applied(s.index, Chosen(s.queue, chosen)))
               else s.(queue := [], index := Applied(s.index, Chosen(s.queue, chosen)), dropped := s.dropped + s.queue)
  {
    var taken := Apply(s, Take);
    assert taken.flights == [s.queue] && taken.flights[..0] + taken.flights[1..] == [];
    assert s.queue + [] == s.queue;
  }

  /** In every interleaving, overlapping flushes included, no document is lost or duplicated without a trace,
      and a re-enqueue never leaves the queue longer than the cap. */
  lemma {:induction false} RunsConserve<Doc(!new)>(states: seq<State<Doc>>, steps: seq<Step<Doc>>, n: nat)
    requires IsRun(states, steps) && n < |states|
    ensures Conserved(states[n])
    ensures n > 0 && steps[n - 1].FailBulk? && states[n].queue != states[n - 1].queue ==>
      |states[n].queue| <= MAX_BATCH_RETRY_CAP
  {
    if n > 0 {
      RunsConserve(states, steps, n - 1);
      assert states[n - 1 + 1] == Apply(states[n - 1], steps[n - 1]);
      StepConserves(states[n - 1], steps[n - 1]);
    }
  }

  // ---------- eventual contents ----------

  /** All operations of the batches, in the order the batches were taken. */
  function Flattened<Doc>(flights: seq<seq<BulkOp<Doc>>>): seq<BulkOp<Doc>> {
    if flights == [] then [] else flights[0] + Flattened(flights[1..])
  }

  /** The operations still to be applied: the batches in flight, then the queue. */
  function Outstanding<Doc>(s: State<Doc>): seq<BulkOp<Doc>> {
    Flattened(s.flights) + s.queue
  }

  /** Applying what is outstanding would bring the index to the in-order result of everything enqueued. */
  ghost predicate CatchesUp<Doc(!new)>(s: State<Doc>) {
    Applied(s.index, Outstanding(s)) == Applied(map[], s.log)
  }

  /** What applying means: at every index and id the last document written there, and elsewhere what was there. */
  lemma {:induction false} LastWriteWins<Doc>(index: map<Key, Doc>, ops: seq<BulkOp<Doc>>, i: nat)
    requires i < |ops| && forall j | i < j < |ops| :: ops[j].index != ops[i].index || ops[j].id != ops[i].id
    ensures (ops[i].index, ops[i].id) in Applied(index, ops)
    ensures Applied(index, ops)[(ops[i].index, ops[i].id)] == ops[i].doc
    decreases |ops|
  {
    var init := ops[..|ops| - 1];
    if i < |init| {
      assert forall j | 0 <= j < |init| :: init[j] == ops[j];
      LastWriteWins(index, init, i);
    }
  }

  lemma {:induction false} OthersAreKept<Doc>(index: map<Key, Doc>, ops: seq<BulkOp<Doc>>, name: string, id: string)
    requires forall j | 0 <= j < |ops| :: ops[j].index != name || ops[j].id != id
    ensures (name, id) in Applied(index, ops) <==> (name, id) in index
    ensures (name, id) in index ==> Applied(index, ops)[(name, id)] == index[(name, id)]
  {
    if ops != [] {
      var init := ops[..|ops| - 1];
      assert forall j | 0 <= j < |init| :: init[j] == ops[j];
      OthersAreKept(index, init, name, id);
    }
  }

  lemma OneIsChosen<Doc>(op: BulkOp<Doc>)
    ensures Chosen([op], [true]) == [op] && Chosen([op], [false]) == []
  {
    assert [op][..0] == [] && [true][..0] == [] && [false][..0] == [];
  }

  /** A failed request can have applied any part of its batch, in order: what it applied of a batch is what it applied of
      the first operations and then of the rest, down to single ones. */
  lemma {:induction false} AnyPartIsChosen<Doc>(ops: seq<BulkOp<Doc>>, chosen: seq<bool>, n: nat)
    requires |chosen| == |ops| && n <= |ops|
    ensures Chosen(ops, chosen) == Chosen(ops[..n], chosen[..n]) + Chosen(ops[n..], chosen[n..])
    decreases |ops|
  {
    if n < |ops| {
      var m := |ops| - 1;
      AnyPartIsChosen(ops[..m], chosen[..m], n);
      assert ops[..m][..n] == ops[..n] && chosen[..m][..n] == chosen[..n];
      assert ops[n..][..m - n] == ops[..m][n..] && chosen[n..][..m - n] == chosen[..m][n..];
    } else {
      assert ops[..n] == ops && chosen[..n] == chosen;
    }
  }

  /** Every key that both lists write ends up with the same document in both. */
  ghost predicate Agree<Doc(!new)>(a: seq<BulkOp<Doc>>, b: seq<BulkOp<Doc>>) {
    forall k | Mentions(a, k) && Mentions(b, k) :: Last(a, k) == Last(b, k)
  }

  /** The document that a list of operations leaves at a key it writes. */
  ghost function Last<Doc>(ops: seq<BulkOp<Doc>>, k: Key): Doc
    requires Mentions(ops, k)
  {
    MentionedOverwrites(map[], map[], ops, k);
    Applied(map[], ops)[k]
  }

  /** Batches in flight at the same time agree pairwise; a single one always does. */
  ghost predicate FlightsAgree<Doc(!new)>(flights: seq<seq<BulkOp<Doc>>>) {
    forall i, j | 0 <= i < j < |flights| :: Agree(flights[i], flights[j])
  }

  lemma {:induction false} AppliedConcat<Doc>(index: map<Key, Doc>, a: seq<BulkOp<Doc>>, b: seq<BulkOp<Doc>>)
    ensures Applied(index, a + b) == Applied(Applied(index, a), b)
  {
    if b == [] {
      assert a + b == a;
    } else {
      assert (a + b)[..|a + b| - 1] == a + b[..|b| - 1];
      AppliedConcat(index, a, b[..|b| - 1]);
    }
  }

  lemma {:induction false} AppliedTouchesMentioned<Doc>(index: map<Key, Doc>, ops: seq<BulkOp<Doc>>, k: Key)
    requires !Mentions(ops, k)
    ensures k in Applied(index, ops) <==> k in index
    ensures k in index ==> Applied(index, ops)[k] == index[k]
  {
    if ops != [] {
      var init := ops[..|ops| - 1];
      assert !Mentions(init, k) by {
        assert forall i | 0 <= i < |init| :: init[i] == ops[i];
      }
      AppliedTouchesMentioned(index, init, k);
      assert KeyOf(ops[|ops| - 1]) != k;
    }
  }

  lemma {:induction false} ChosenMentions<Doc>(ops: seq<BulkOp<Doc>>, chosen: seq<bool>, k: Key)
    requires |chosen| == |ops| && Mentions(Chosen(ops, chosen), k)
    ensures Mentions(ops, k)
  {
    if ops != [] {
      var n := |ops| - 1;
      var init := Chosen(ops[..n], chosen[..n]);
      var i :| 0 <= i < |Chosen(ops, chosen)| && KeyOf(Chosen(ops, chosen)[i]) == k;
      if i < |init| {
        assert Mentions(init, k);
        ChosenMentions(ops[..n], chosen[..n], k);
        var j :| 0 <= j < n && KeyOf(ops[..n][j]) == k;
        assert KeyOf(ops[j]) == k;
      } else {
        assert KeyOf(ops[n]) == k;
      }
    }
  }

  /** On a key the operations mention, their result does not depend on what the index held before. */
  lemma {:induction false} MentionedOverwrites<Doc>(a: map<Key, Doc>, b: map<Key, Doc>, ops: seq<BulkOp<Doc>>, k: Key)
    requires Mentions(ops, k)
    ensures k in Applied(a, ops) && k in Applied(b, ops) && Applied(a, ops)[k] == Applied(b, ops)[k]
  {
    var n := |ops| - 1;
    if KeyOf(ops[n]) != k {
      var i :| 0 <= i < |ops| && KeyOf(ops[i]) == k;
      assert KeyOf(ops[..n][i]) == k;
      MentionedOverwrites(a, b, ops[..n], k);
    }
  }

  /** Replaying a batch makes up for whatever part of it a failed request had applied. */
  lemma ReplayAbsorbs<Doc(!new)>(index: map<Key, Doc>, batch: seq<BulkOp<Doc>>, chosen: seq<bool>)
    requires |chosen| == |batch|
    ensures Applied(Applied(index, Chosen(batch, chosen)), batch) == Applied(index, batch)
  {
    var part := Applied(index, Chosen(batch, chosen));
    var l, r := Applied(part, batch), Applied(index, batch);
    forall k
      ensures (k in l <==> k in r) && (k in l ==> l[k] == r[k])
    {
      if Mentions(batch, k) {
        MentionedOverwrites(part, index, batch, k);
      } else {
        AppliedTouchesMentioned(part, batch, k);
        AppliedTouchesMentioned(index, batch, k);
        if Mentions(Chosen(batch, chosen), k) {
          ChosenMentions(batch, chosen, k);
        }
        AppliedTouchesMentioned(index, Chosen(batch, chosen), k);
      }
    }
  }

  /** The index after two lists, key by key. */
  lemma AppliedTwice<Doc>(index: map<Key, Doc>, a: seq<BulkOp<Doc>>, b: seq<BulkOp<Doc>>, k: Key)
    ensures var m := Applied(Applied(index, a), b);
            if Mentions(b, k) then k in m && m[k] == Last(b, k)
            else if Mentions(a, k) then k in m && m[k] == Last(a, k)
            else (k in m <==> k in index) && (k in m ==> m[k] == index[k])
  {
    var part := Applied(index, a);
    if Mentions(b, k) {
      MentionedOverwrites(part, map[], b, k);
    } else {
      AppliedTouchesMentioned(part, b, k);
      if Mentions(a, k) {
        MentionedOverwrites(index, map[], a, k);
      } else {
        AppliedTouchesMentioned(index, a, k);
      }
    }
  }

  /** Two batches can be applied in either order exactly when they agree on the keys they share; batches on disjoint
      keys always do. */
  lemma BatchesCommuteExactly<Doc(!new)>(index: map<Key, Doc>, a: seq<BulkOp<Doc>>, b: seq<BulkOp<Doc>>)
    ensures Applied(Applied(index, a), b) == Applied(Applied(index, b), a) <==> Agree(a, b)
  {
    var l, r := Applied(Applied(index, a), b), Applied(Applied(index, b), a);
    forall k
      ensures ((k in l <==> k in r) && (k in l ==> l[k] == r[k]))
              <==> (Mentions(a, k) && Mentions(b, k) ==> Last(a, k) == Last(b, k))
    {
      AppliedTwice(index, a, b, k);
      AppliedTwice(index, b, a, k);
    }
    if Agree(a, b) {
      assert l == r;
    }
  }

  lemma {:induction false} FlattenedConcat<Doc>(a: seq<seq<BulkOp<Doc>>>, b: seq<seq<BulkOp<Doc>>>)
    ensures Flattened(a + b) == Flattened(a) + Flattened(b)
  {
    if a == [] {
      assert a + b == b;
    } else {
      assert (a + b)[1..] == a[1..] + b;
      FlattenedConcat(a[1..], b);
    }
  }

  lemma FlattenedOne<Doc>(batch: seq<BulkOp<Doc>>)
    ensures Flattened([batch]) == batch
  {
    assert [batch][1..] == [];
  }

  lemma FlattenedAround<Doc>(before: seq<seq<BulkOp<Doc>>>, batch: seq<BulkOp<Doc>>, after: seq<seq<BulkOp<Doc>>>)
    ensures Flattened(before + [batch] + after) == Flattened(before) + batch + Flattened(after)
  {
    FlattenedConcat(before + [batch], after);
    FlattenedAppend(before, batch);
  }

  lemma FlattenedAppend<Doc>(flights: seq<seq<BulkOp<Doc>>>, batch: seq<BulkOp<Doc>>)
    ensures Flattened(flights + [batch]) == Flattened(flights) + batch
  {
    FlattenedConcat(flights, [batch]);
    FlattenedOne(batch);
  }

  /** A batch moves to the front of those taken before it. */
  lemma {:induction false} MoveToFront<Doc(!new)>(index: map<Key, Doc>, earlier: seq<seq<BulkOp<Doc>>>, batch: seq<BulkOp<Doc>>)
    requires forall i | 0 <= i < |earlier| :: Agree(earlier[i], batch)
    ensures Applied(Applied(index, Flattened(earlier)), batch) == Applied(Applied(index, batch), Flattened(earlier))
    decreases |earlier|
  {
    if earlier != [] {
      var first, rest := earlier[0], earlier[1..];
      MoveToFront(Applied(index, first), rest, batch);
      BatchesCommuteExactly(index, first, batch);
      AppliedConcat(index, first, Flattened(rest));
      AppliedConcat(Applied(index, batch), first, Flattened(rest));
    }
  }

  /** With f applied first, or put back behind the others, the outstanding operations come to the same. */
  lemma Reordered<Doc(!new)>(index: map<Key, Doc>, flights: seq<seq<BulkOp<Doc>>>, f: nat, queue: seq<BulkOp<Doc>>)
    requires f < |flights| && FlightsAgree(flights)
    ensures var others := Flattened(flights[..f] + flights[f + 1..]);
            && Applied(index, Flattened(flights) + queue) == Applied(Applied(index, flights[f]), others + queue)
            && Applied(index, Flattened(flights) + queue) == Applied(index, others + (flights[f] + queue))
  {
    var before, batch, after := flights[..f], flights[f], flights[f + 1..];
    var x, z := Flattened(before), Flattened(after);
    assert flights == before + [batch] + after;
    FlattenedAround(before, batch, after);
    FlattenedConcat(before, after);
    assert x + batch + z + queue == x + (batch + (z + queue));
    assert x + z + queue == x + (z + queue);
    assert x + z + (batch + queue) == x + (z + (batch + queue));
    ThreeParts(index, x, batch, z + queue);
    MoveToFront(index, before, batch);
    AppliedConcat(Applied(index, batch), x, z + queue);
    var m := Applied(index, x);
    AppliedConcat(index, x, z + (batch + queue));
    ThreeParts(m, z, batch, queue);
    ThreeParts(m, batch, z, queue);
    AppliedConcat(m, batch, z + queue);
    assert forall i | 0 <= i < |after| :: after[i] == flights[f + 1 + i];
    MoveToBack(m, after, batch);
  }

  lemma ThreeParts<Doc>(index: map<Key, Doc>, a: seq<BulkOp<Doc>>, b: seq<BulkOp<Doc>>, c: seq<BulkOp<Doc>>)
    ensures Applied(index, a + (b + c)) == Applied(Applied(Applied(index, a), b), c)
  {
    AppliedConcat(index, a, b + c);
    AppliedConcat(Applied(index, a), b, c);
  }

  lemma MoveToBack<Doc(!new)>(index: map<Key, Doc>, later: seq<seq<BulkOp<Doc>>>, batch: seq<BulkOp<Doc>>)
    requires forall i | 0 <= i < |later| :: Agree(batch, later[i])
    ensures Applied(Applied(index, Flattened(later)), batch) == Applied(Applied(index, batch), Flattened(later))
  {
    forall i | 0 <= i < |later|
      ensures Agree(later[i], batch)
    {
      assert Agree(batch, later[i]);
    }
    MoveToFront(index, later, batch);
  }

  /** What part of a batch a failed request applied does not matter as long as the batch is still to come. */
  lemma PartIsAbsorbed<Doc(!new)>(index: map<Key, Doc>, others: seq<BulkOp<Doc>>, batch: seq<BulkOp<Doc>>,
                                  chosen: seq<bool>, queue: seq<BulkOp<Doc>>)
    requires |chosen| == |batch|
    ensures Applied(Applied(index, Chosen(batch, chosen)), others + (batch + queue)) == Applied(index, others + (batch + queue))
  {
    var part := Applied(index, Chosen(batch, chosen));
    ThreeParts(part, others, batch, queue);
    ThreeParts(index, others, batch, queue);
    var l, r := Applied(Applied(part, others), batch), Applied(Applied(index, others), batch);
    forall k
      ensures (k in l <==> k in r) && (k in l ==> l[k] == r[k])
    {
      AppliedTwice(part, others, batch, k);
      AppliedTwice(index, others, batch, k);
      if !Mentions(batch, k) {
        if Mentions(Chosen(batch, chosen), k) {
          ChosenMentions(batch, chosen, k);
        }
        AppliedTouchesMentioned(index, Chosen(batch, chosen), k);
      }
    }
    assert l == r;
  }

  /** A step that drops no batch keeps the index on course while the batches in flight agree. */
  lemma StepCatchesUp<Doc(!new)>(s: State<Doc>, step: Step<Doc>)
    requires CatchesUp(s) && Enabled(s, step) && FlightsAgree(s.flights)
    requires Apply(s, step).dropped == s.dropped
    ensures CatchesUp(Apply(s, step))
  {
    match step {
      case Add(op) =>
        assert Outstanding(Apply(s, step)) == Outstanding(s) + [op];
        AppliedConcat(s.index, Outstanding(s), [op]);
        AppliedConcat(map[], s.log, [op]);
      case Take =>
        FlattenedAppend(s.flights, s.queue);
        assert Outstanding(Apply(s, step)) == Outstanding(s);
      case Succeed(f) => Reordered(s.index, s.flights, f, s.queue);
      case FailBulk(f, chosen) => FailureCatchesUp(s, f, chosen);
    }
  }

  lemma FailureCatchesUp<Doc(!new)>(s: State<Doc>, f: nat, chosen: seq<bool>)
    requires CatchesUp(s) && Enabled(s, FailBulk(f, chosen)) && FlightsAgree(s.flights)
    requires Apply(s, FailBulk(f, chosen)).dropped == s.dropped
    ensures CatchesUp(Apply(s, FailBulk(f, chosen)))
  {
    var batch, others := s.flights[f], Flattened(s.flights[..f] + s.flights[f + 1..]);
    Reordered(s.index, s.flights, f, s.queue);
    PartIsAbsorbed(s.index, others, batch, chosen, s.queue);
    if |s.queue| + |batch| > MAX_BATCH_RETRY_CAP {
      assert s.dropped + batch == s.dropped;
      assert batch == [] && [] + s.queue == s.queue;
    }
  }

  /** If batches in flight at the same time always agree on the keys they share (as they do when flushes do not
      overlap, or only on disjoint documents) and nothing is dropped, then whenever nothing is queued or in flight the
      index is the in-order result of everything enqueued, whatever parts of batches failed requests had applied. */
  lemma {:induction false} DrainedIndexIsComplete<Doc(!new)>(states: seq<State<Doc>>, steps: seq<Step<Doc>>, n: nat)
    requires IsRun(states, steps) && n < |states|
    requires forall i | 0 <= i <= n :: FlightsAgree(states[i].flights)
    requires states[n].dropped == []
    ensures CatchesUp(states[n])
    ensures states[n].queue == [] && states[n].flights == [] ==> states[n].index == Applied(map[], states[n].log)
  {
    if n > 0 {
      assert states[n - 1 + 1] == Apply(states[n - 1], steps[n - 1]);
      DroppedOnlyGrows(states[n - 1], steps[n - 1]);
      DrainedIndexIsComplete(states, steps, n - 1);
      assert FlightsAgree(states[n - 1].flights);
      StepCatchesUp(states[n - 1], steps[n - 1]);
    }
    if states[n].queue == [] && states[n].flights == [] {
      assert Outstanding(states[n]) == [];
    }
  }

  lemma DroppedOnlyGrows<Doc>(s: State<Doc>, step: Step<Doc>)
    requires Enabled(s, step) && Apply(s, step).dropped == []
    ensures s.dropped == []
  {
  }

  // ---------- any overlap ----------

  ghost predicate SameAt<Doc(!new)>(a: map<Key, Doc>, b: map<Key, Doc>, k: Key) {
    (k in a <==> k in b) && (k in a ==> a[k] == b[k])
  }

  /** At every key that nothing outstanding writes, the index is what the delivered batches make it. */
  ghost predicate Settled<Doc(!new)>(s: State<Doc>) {
    forall k | !Mentions(Outstanding(s), k) :: SameAt(s.index, Applied(map[], s.delivered), k)
  }

  lemma MentionsConcat<Doc>(a: seq<BulkOp<Doc>>, b: seq<BulkOp<Doc>>, k: Key)
    ensures Mentions(a + b, k) <==> Mentions(a, k) || Mentions(b, k)
  {
    if Mentions(a, k) {
      var i :| 0 <= i < |a| && KeyOf(a[i]) == k;
      assert KeyOf((a + b)[i]) == k;
    }
    if Mentions(b, k) {
      var i :| 0 <= i < |b| && KeyOf(b[i]) == k;
      assert KeyOf((a + b)[|a| + i]) == k;
    }
  }

  /** What is outstanding is one batch in flight and the rest. */
  lemma OutstandingWithout<Doc>(flights: seq<seq<BulkOp<Doc>>>, f: nat, queue: seq<BulkOp<Doc>>, k: Key)
    requires f < |flights|
    ensures var rest := Flattened(flights[..f] + flights[f + 1..]);
            Mentions(Flattened(flights) + queue, k) <==> Mentions(rest + queue, k) || Mentions(flights[f], k)
  {
    var before, batch, after := flights[..f], flights[f], flights[f + 1..];
    assert flights == before + [batch] + after;
    FlattenedAround(before, batch, after);
    FlattenedConcat(before, after);
    MentionsConcat(Flattened(before) + batch, Flattened(after), k);
    MentionsConcat(Flattened(before), batch, k);
    MentionsConcat(Flattened(before), Flattened(after), k);
    MentionsConcat(Flattened(flights), queue, k);
    MentionsConcat(Flattened(before + after), queue, k);
  }

  /** A batch leaves at every key it writes the same, and at every other key changes nothing. */
  lemma AppliedAlike<Doc(!new)>(a: map<Key, Doc>, b: map<Key, Doc>, ops: seq<BulkOp<Doc>>, k: Key)
    requires Mentions(ops, k) || SameAt(a, b, k)
    ensures SameAt(Applied(a, ops), Applied(b, ops), k)
  {
    if Mentions(ops, k) {
      MentionedOverwrites(a, b, ops, k);
    } else {
      AppliedTouchesMentioned(a, ops, k);
      AppliedTouchesMentioned(b, ops, k);
    }
  }

  lemma SuccessSettles<Doc(!new)>(s: State<Doc>, f: nat)
    requires Settled(s) && Enabled(s, Succeed(f))
    ensures Settled(Apply(s, Succeed(f)))
  {
    var s' := Apply(s, Succeed(f));
    AppliedConcat(map[], s.delivered, s.flights[f]);
    forall k | !Mentions(Outstanding(s'), k)
      ensures SameAt(s'.index, Applied(map[], s'.delivered), k)
    {
      OutstandingWithout(s.flights, f, s.queue, k);
      AppliedAlike(s.index, Applied(map[], s.delivered), s.flights[f], k);
    }
  }

  lemma FailureSettles<Doc(!new)>(s: State<Doc>, f: nat, chosen: seq<bool>)
    requires Settled(s) && Enabled(s, FailBulk(f, chosen)) && Apply(s, FailBulk(f, chosen)).dropped == s.dropped
    ensures Settled(Apply(s, FailBulk(f, chosen)))
  {
    var s', batch := Apply(s, FailBulk(f, chosen)), s.flights[f];
    var rest := Flattened(s.flights[..f] + s.flights[f + 1..]);
    if |s.queue| + |batch| > MAX_BATCH_RETRY_CAP {
      assert s.dropped + batch == s.dropped && batch == [];
    }
    assert s'.queue == batch + s.queue && Outstanding(s') == rest + (batch + s.queue);
    forall k | !Mentions(Outstanding(s'), k)
      ensures SameAt(s'.index, Applied(map[], s'.delivered), k)
    {
      OutstandingWithout(s.flights, f, s.queue, k);
      MentionsConcat(batch, s.queue, k);
      MentionsConcat(rest, batch + s.queue, k);
      MentionsConcat(rest, s.queue, k);
      assert !Mentions(batch, k) && !Mentions(Outstanding(s), k);
      assert SameAt(s.index, Applied(map[], s.delivered), k);
      if Mentions(Chosen(batch, chosen), k) {
        ChosenMentions(batch, chosen, k);
      }
      AppliedTouchesMentioned(s.index, Chosen(batch, chosen), k);
    }
  }

  lemma StepSettles<Doc(!new)>(s: State<Doc>, step: Step<Doc>)
    requires Settled(s) && Enabled(s, step) && Apply(s, step).dropped == s.dropped
    ensures Settled(Apply(s, step))
  {
    match step {
      case Add(op) =>
        assert Outstanding(Apply(s, step)) == Outstanding(s) + [op];
        forall k | !Mentions(Outstanding(s) + [op], k)
          ensures !Mentions(Outstanding(s), k)
        {
          MentionsConcat(Outstanding(s), [op], k);
        }
      case Take =>
        FlattenedAppend(s.flights, s.queue);
        assert Outstanding(Apply(s, step)) == Outstanding(s);
      case Succeed(f) => SuccessSettles(s, f);
      case FailBulk(f, chosen) => FailureSettles(s, f, chosen);
    }
  }

  /** In every run that drops nothing, however flushes overlap and whatever parts of batches failed requests applied:
      once nothing is queued or in flight, the index is the result of the delivered batches in the order they were
      delivered. */
  lemma {:induction false} DrainedIndexIsDelivered<Doc(!new)>(states: seq<State<Doc>>, steps: seq<Step<Doc>>, n: nat)
    requires IsRun(states, steps) && n < |states| && states[n].dropped == []
    ensures Settled(states[n])
    ensures states[n].queue == [] && states[n].flights == [] ==> states[n].index == Applied(map[], states[n].delivered)
  {
    if n > 0 {
      assert states[n - 1 + 1] == Apply(states[n - 1], steps[n - 1]);
      DroppedOnlyGrows(states[n - 1], steps[n - 1]);
      DrainedIndexIsDelivered(states, steps, n - 1);
      StepSettles(states[n - 1], steps[n - 1]);
    }
    if states[n].queue == [] && states[n].flights == [] {
      SettledAndDrained(states[n]);
    }
  }

  lemma SettledAndDrained<Doc(!new)>(s: State<Doc>)
    requires Settled(s) && s.queue == [] && s.flights == []
    ensures s.index == Applied(map[], s.delivered)
  {
    assert Outstanding(s) == [];
    SameEverywhere(s.index, Applied(map[], s.delivered));
  }

  lemma SameEverywhere<Doc(!new)>(a: map<Key, Doc>, b: map<Key, Doc>)
    requires forall k :: SameAt(a, b, k)
    ensures a == b
  {
    forall k
      ensures (k in a <==> k in b) && (k in a ==> a[k] == b[k])
    {
      assert SameAt(a, b, k);
    }
  }

  lemma SameOpsSameKeys<Doc>(a: seq<BulkOp<Doc>>, b: seq<BulkOp<Doc>>, k: Key)
    requires multiset(a) == multiset(b)
    ensures Mentions(a, k) <==> Mentions(b, k)
  {
    if Mentions(a, k) {
      var i :| 0 <= i < |a| && KeyOf(a[i]) == k;
      assert a[i] in multiset(b);
    }
    if Mentions(b, k) {
      var i :| 0 <= i < |b| && KeyOf(b[i]) == k;
      assert b[i] in multiset(a);
    }
  }

  /** So it is the right index exactly when the order of delivery leaves at every id the document that was enqueued for
      it last. */
  lemma DrainedIndexIsRightExactly<Doc(!new)>(states: seq<State<Doc>>, steps: seq<Step<Doc>>, n: nat)
    requires IsRun(states, steps) && n < |states| && states[n].dropped == []
    requires states[n].queue == [] && states[n].flights == []
    ensures multiset(states[n].delivered) == multiset(states[n].log)
    ensures states[n].index == Applied(map[], states[n].log) <==> Agree(states[n].delivered, states[n].log)
  {
    var s := states[n];
    RunsConserve(states, steps, n);
    assert multiset(s.delivered) == multiset(s.log);
    DrainedIndexIsDelivered(states, steps, n);
    SameResultExactly(s.delivered, s.log);
  }

  lemma SameResultExactly<Doc(!new)>(a: seq<BulkOp<Doc>>, b: seq<BulkOp<Doc>>)
    requires multiset(a) == multiset(b)
    ensures Applied(map[], a) == Applied(map[], b) <==> Agree(a, b)
  {
    var l, r := Applied(map[], a), Applied(map[], b);
    forall k
      ensures SameAt(l, r, k) <==> (Mentions(a, k) && Mentions(b, k) ==> Last(a, k) == Last(b, k))
    {
      SameOpsSameKeys(a, b, k);
      if Mentions(a, k) {
        MentionedOverwrites(map[], map[], a, k);
        MentionedOverwrites(map[], map[], b, k);
      } else {
        AppliedTouchesMentioned(map[], a, k);
        AppliedTouchesMentioned(map[], b, k);
      }
    }
    if Agree(a, b) {
      SameEverywhere(l, r);
    } else {
      var k :| Mentions(a, k) && Mentions(b, k) && Last(a, k) != Last(b, k);
      assert !SameAt(l, r, k);
    }
  }

  /** Two overlapping flushes that finish in the wrong order leave the right index exactly when their batches agree. */
  lemma OutOfOrderIsRightExactly<Doc(!new)>(s: State<Doc>)
    requires CatchesUp(s) && |s.flights| == 2 && s.queue == []
    ensures var s' := Apply(Apply(s, Succeed(1)), Succeed(0));
            && s'.queue == [] && s'.flights == [] && s'.log == s.log && s'.dropped == s.dropped
            && (s'.index == Applied(map[], s'.log) <==> Agree(s.flights[0], s.flights[1]))
  {
    var a, b := s.flights[0], s.flights[1];
    assert s.flights == [a] + [b];
    FlattenedAppend([a], b);
    FlattenedOne(a);
    assert a + b + [] == a + b;
    AppliedConcat(s.index, a, b);
    BatchesCommuteExactly(s.index, a, b);
  }

  /** Overlapping flushes break the order: the older of two writes to one id can land last, with nothing
      outstanding. */
  lemma OverlapCanGoStale<Doc(!new)>(old_: Doc, new_: Doc)
    requires old_ != new_
    ensures var a, b := BulkOp("i", "d", old_), BulkOp("i", "d", new_);
      var s0: State<Doc> := Init();
      var s1 := Apply(Apply(s0, Add(a)), Take);
      var s2 := Apply(Apply(s1, Add(b)), Take);
      var s3 := Apply(Apply(s2, Succeed(1)), Succeed(0));
      s3.queue == [] && s3.flights == [] && s3.dropped == [] && s3.index != Applied(map[], s3.log)
  {
    var a, b := BulkOp("i", "d", old_), BulkOp("i", "d", new_);
    assert [a][..0] == [] && [b][..0] == [] && [a, b][..1] == [a];
    assert [a] + [b] == [a, b];
    assert Applied(map[], [a, b])[("i", "d")] == new_;
    var m: map<Key, Doc> := Applied(map[], [b]);
    assert Applied(m, [a])[("i", "d")] == old_;
  }
}
