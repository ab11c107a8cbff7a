/** The drag-and-drop provider around the category list: the three drag
    events and their reactions, the reorder performed on a drop (a
    single-element move followed by dense renumbering), the `{id, position}`
    snapshot handed to the debounced persistence sink, the sink itself as a
    pending-slot state machine, and the batch of remote updates a flush
    issues. */
module DragDrop {

  import opened Types
  import Lists

  /** One `{id, position}` pair of a snapshot. */
  datatype PositionUpdate = PositionUpdate(id: string, position: int)

  /** All fields of a category other than its position. */
  predicate SamePayload(a: Category, b: Category)
  {
    a.id == b.id && a.userId == b.userId && a.name == b.name &&
    a.isActive == b.isActive && a.updatedAt == b.updatedAt
  }

  /** Every category's position is its index: positions are 0, 1, ..., n-1. */
  predicate DensePositions(cs: seq<Category>)
  {
    forall i :: 0 <= i < |cs| ==> cs[i].position == i
  }

  /** `reordered.map((cat, idx) => ({ ...cat, position: idx }))`. */
  function Renumber(cs: seq<Category>): (r: seq<Category>)
    ensures |r| == |cs|
    ensures DensePositions(r)
    ensures forall i :: 0 <= i < |r| ==> SamePayload(r[i], cs[i])
  {
    seq(|cs|, i requires 0 <= i < |cs| => cs[i].(position := i))
  }

  /** Dense positions are exactly the set {0, ..., n-1}: no gaps, no
      duplicates, nothing outside the range. */
  function Positions(cs: seq<Category>): set<int>
  {
    set c | c in cs :: c.position
  }

  lemma DensePositionSet(cs: seq<Category>)
    requires DensePositions(cs)
    ensures forall p: int :: p in Positions(cs) <==> 0 <= p < |cs|
  {
    forall p: int | 0 <= p < |cs| ensures p in Positions(cs) {
      assert cs[p] in cs;
    }
  }

  /** Renumbering a list that is already dense changes nothing, so it is
      idempotent. */
  lemma RenumberDenseIsIdentity(cs: seq<Category>)
    requires DensePositions(cs)
    ensures Renumber(cs) == cs
  {
  }

  /** The list with positions blanked: what a reorder must permute. */
  function Unpositioned(cs: seq<Category>): (r: seq<Category>)
    ensures |r| == |cs|
  {
    seq(|cs|, i requires 0 <= i < |cs| => cs[i].(position := 0))
  }

  lemma UnpositionedRenumber(cs: seq<Category>)
    ensures Unpositioned(Renumber(cs)) == Unpositioned(cs)
  {
  }

  lemma UnpositionedMove(cs: seq<Category>, from: nat, to: nat)
    requires from < |cs| && to < |cs|
    ensures Unpositioned(Lists.Move(cs, from, to)) == Lists.Move(Unpositioned(cs), from, to)
  {
  }

  /** A move permutes the categories once positions are ignored. */
  lemma ArrayMovePermutes(cs: seq<Category>, from: int, to: int)
    requires -1 <= from < |cs| && -1 <= to < |cs|
    ensures multiset(Unpositioned(Lists.ArrayMove(cs, from, to))) == multiset(Unpositioned(cs))
  {
    if |cs| > 0 {
      UnpositionedMove(cs, if from < 0 then |cs| - 1 else from, if to < 0 then |cs| - 1 else to);
    }
  }

  /** `updated.map(cat => ({ id: cat.id, position: cat.position }))`. */
  function Snapshot(cs: seq<Category>): (r: seq<PositionUpdate>)
    ensures |r| == |cs|
    ensures forall i :: 0 <= i < |r| ==> r[i].id == cs[i].id && r[i].position == cs[i].position
  {
    seq(|cs|, i requires 0 <= i < |cs| => PositionUpdate(cs[i].id, cs[i].position))
  }

  function IsId(id: string): Category -> bool
  {
    (c: Category) => c.id == id
  }

  /** The list a drop of `active` onto `over` dispatches, before any guard. */
  function Reorder(categories: seq<Category>, active: string, over: string): (r: seq<Category>)
    ensures |r| == |categories|
    ensures DensePositions(r)
    ensures multiset(Unpositioned(r)) == multiset(Unpositioned(categories))
  {
    var oldIndex := Lists.FindIndex(categories, IsId(active));
    var newIndex := Lists.FindIndex(categories, IsId(over));
    var reordered := Lists.ArrayMove(categories, oldIndex, newIndex);
    UnpositionedRenumber(reordered);
    ArrayMovePermutes(categories, oldIndex, newIndex);
    Renumber(reordered)
  }

  /** The three events the drag-and-drop context reports. `over` is the
      drop target under the pointer, if any. */
  datatype DragEvent =
    | DragStart(draggedId: string)
    | DragEnd(activeId: string, over: Option<string>)
    | DragCancel

  /** Which of the view's two notification hooks a reaction calls. */
  datatype Hook = NotifyDragStart | NotifyDragStop

  /** What the provider does in response to one event: the id it now
      tracks as dragged, the hook it calls, the category list it dispatches
      with SET_CATEGORIES (if any) and the snapshot it hands to the
      debounced sink (if any). */
  datatype Reaction = Reaction(
    tracked: Option<string>,
    hook: Hook,
    dispatched: Option<seq<Category>>,
    scheduled: Option<seq<PositionUpdate>>)

  /** The provider's handlers, as one transition over the closed event
      variant. */
  function OnDragEvent(categories: seq<Category>, e: DragEvent): (r: Reaction)
    ensures e.DragStart? ==> r.tracked == Some(e.draggedId) && r.hook == NotifyDragStart
    ensures !e.DragStart? ==> r.tracked.None? && r.hook == NotifyDragStop
    ensures r.dispatched.Some? <==> e.DragEnd? && e.over.Some? && e.over.value != e.activeId
    ensures r.scheduled.Some? <==> r.dispatched.Some?
    ensures r.dispatched.Some? ==>
              |r.dispatched.value| == |categories| &&
              DensePositions(r.dispatched.value) &&
              multiset(Unpositioned(r.dispatched.value)) == multiset(Unpositioned(categories)) &&
              r.scheduled == Some(Snapshot(r.dispatched.value))
  {
    match e
    case DragStart(id) => Reaction(Some(id), NotifyDragStart, None, None)
    case DragCancel => Reaction(None, NotifyDragStop, None, None)
    case DragEnd(active, over) =>
      if over.None? || active == over.value then Reaction(None, NotifyDragStop, None, None)
      else
        var updated := Reorder(categories, active, over.value);
        Reaction(None, NotifyDragStop, Some(updated), Some(Snapshot(updated)))
  }

  /** With distinct ids, looking a category's id up finds its index. */
  lemma FindOwnIndex(cs: seq<Category>, k: nat)
    requires k < |cs| && DistinctIds(cs)
    ensures Lists.FindIndex(cs, IsId(cs[k].id)) == k
  {
    assert IsId(cs[k].id)(cs[k]);
  }

  /** With distinct ids, a drop of the category at `from` onto the one at
      `to` dispatches the move of `from` to `to`, renumbered. */
  lemma DropIsMove(categories: seq<Category>, from: nat, to: nat)
    requires from < |categories| && to < |categories| && from != to
    requires DistinctIds(categories)
    ensures OnDragEvent(categories, DragEnd(categories[from].id, Some(categories[to].id))).dispatched ==
            Some(Renumber(Lists.Move(categories, from, to)))
  {
    FindOwnIndex(categories, from);
    FindOwnIndex(categories, to);
  }

  /** A drop of the category at index `from` onto the one at index `to`
      (ids distinct, so both are found): the moved category lands at the
      target's old index, the categories strictly between shift by one
      towards the vacated slot, all others keep their index, and every one
      keeps its payload and takes its new index as position. */
  lemma DropMovesToTarget(categories: seq<Category>, from: nat, to: nat)
    requires from < |categories| && to < |categories| && from != to
    requires DistinctIds(categories)
    ensures var r := OnDragEvent(categories, DragEnd(categories[from].id, Some(categories[to].id)));
            r.dispatched.Some? &&
            var u := r.dispatched.value;
            |u| == |categories| &&
            SamePayload(u[to], categories[from]) && u[to].position == to &&
            (forall k :: 0 <= k < |u| && k < from && k < to ==> SamePayload(u[k], categories[k])) &&
            (forall k :: 0 <= k < |u| && k > from && k > to ==> SamePayload(u[k], categories[k])) &&
            (forall k :: from <= k < to ==> SamePayload(u[k], categories[k + 1])) &&
            (forall k :: to < k <= from ==> SamePayload(u[k], categories[k - 1])) &&
            DensePositions(u)
  {
    DropIsMove(categories, from, to);
    MovedRenumbered(categories, from, to);
  }

  lemma MovedRenumbered(cs: seq<Category>, from: nat, to: nat)
    requires from < |cs| && to < |cs|
    ensures var u := Renumber(Lists.Move(cs, from, to));
            |u| == |cs| &&
            SamePayload(u[to], cs[from]) && u[to].position == to &&
            (forall k :: 0 <= k < |u| && k < from && k < to ==> SamePayload(u[k], cs[k])) &&
            (forall k :: 0 <= k < |u| && k > from && k > to ==> SamePayload(u[k], cs[k])) &&
            (forall k :: from <= k < to ==> SamePayload(u[k], cs[k + 1])) &&
            (forall k :: to < k <= from ==> SamePayload(u[k], cs[k - 1])) &&
            DensePositions(u)
  {
    var m := Lists.Move(cs, from, to);
    var u := Renumber(m);
    assert forall k :: 0 <= k < |u| ==> SamePayload(u[k], m[k]);
  }

  /** A drop naming an id the list does not hold is not ignored:
      `findIndex` yields -1, which the move reads as the last slot. A
      missing target sends the dragged category to the end. */
  lemma DropOntoMissingTarget(categories: seq<Category>, k: nat, over: string)
    requires k < |categories| && DistinctIds(categories)
    requires forall i :: 0 <= i < |categories| ==> categories[i].id != over
    ensures OnDragEvent(categories, DragEnd(categories[k].id, Some(over))).dispatched ==
            Some(Renumber(Lists.Move(categories, k, |categories| - 1)))
  {
    FindOwnIndex(categories, k);
    assert forall i :: 0 <= i < |categories| ==> !IsId(over)(categories[i]);
    assert Lists.FindIndex(categories, IsId(over)) == -1;
  }

  /** Likewise, a missing dragged id moves the LAST category onto the
      target's index. */
  lemma DropOfMissingItem(categories: seq<Category>, active: string, k: nat)
    requires k < |categories| && DistinctIds(categories)
    requires forall i :: 0 <= i < |categories| ==> categories[i].id != active
    ensures OnDragEvent(categories, DragEnd(active, Some(categories[k].id))).dispatched ==
            Some(Renumber(Lists.Move(categories, |categories| - 1, k)))
  {
    FindOwnIndex(categories, k);
    assert forall i :: 0 <= i < |categories| ==> !IsId(active)(categories[i]);
    assert Lists.FindIndex(categories, IsId(active)) == -1;
  }

  /** The drop on the list [A, B, C] of A onto C gives [B, C, A] with
      positions 0, 1, 2. */
  lemma DropExample(a: Category, b: Category, c: Category)
    requires a.id != b.id && b.id != c.id && a.id != c.id
    ensures OnDragEvent([a, b, c], DragEnd(a.id, Some(c.id))).dispatched ==
            Some([b.(position := 0), c.(position := 1), a.(position := 2)])
  {
    var cs := [a, b, c];
    assert DistinctIds(cs) by {
      forall i, j | 0 <= i < 3 && 0 <= j < 3 && i != j ensures cs[i].id != cs[j].id {
      }
    }
    MoveFirstToLast(a, b, c);
    RenumberThree(b, c, a);
    DropIsMove(cs, 0, 2);
  }

  lemma MoveFirstToLast(a: Category, b: Category, c: Category)
    ensures Lists.Move([a, b, c], 0, 2) == [b, c, a]
  {
    var m := Lists.Move([a, b, c], 0, 2);
    assert m[0] == b && m[1] == c && m[2] == a;
  }

  lemma RenumberThree(a: Category, b: Category, c: Category)
    ensures Renumber([a, b, c]) == [a.(position := 0), b.(position := 1), c.(position := 2)]
  {
    var u := Renumber([a, b, c]);
    assert u[0] == a.(position := 0);
    assert u[1] == b.(position := 1);
    assert u[2] == c.(position := 2);
  }

  /** The drop handler as the notes page actually wires it: the sidebar is
      rendered without a `dispatch` property (the application context does
      not expose one), so the SET_CATEGORIES call throws. The hooks have
      already run by then; neither the local reorder nor the scheduled
      write happens. */
  function OnDragEventUnwired(categories: seq<Category>, e: DragEvent): (r: Reaction)
    ensures r.tracked == OnDragEvent(categories, e).tracked
    ensures r.hook == OnDragEvent(categories, e).hook
    ensures r.dispatched.None? && r.scheduled.None?
  {
    match e
    case DragStart(id) => Reaction(Some(id), NotifyDragStart, None, None)
    case DragCancel => Reaction(None, NotifyDragStop, None, None)
    case DragEnd(_, _) => Reaction(None, NotifyDragStop, None, None)
  }

  /** Every genuine reorder is lost as wired, while the intended handler
      applies and schedules it. */
  lemma UnwiredDropIsLost(categories: seq<Category>, from: nat, to: nat)
    requires from < |categories| && to < |categories| && from != to
    requires DistinctIds(categories)
    ensures var e := DragEnd(categories[from].id, Some(categories[to].id));
            OnDragEventUnwired(categories, e).dispatched.None? &&
            OnDragEventUnwired(categories, e).scheduled.None? &&
            OnDragEvent(categories, e).dispatched == Some(Renumber(Lists.Move(categories, from, to))) &&
            Renumber(Lists.Move(categories, from, to)) != categories
  {
    DropIsMove(categories, from, to);
    var u := Renumber(Lists.Move(categories, from, to));
    MovedRenumbered(categories, from, to);
    assert SamePayload(u[to], categories[from]);
    assert categories[from].id != categories[to].id;
  }

  /** The pending slot of the debounced sink: the most recent snapshot not
      yet written, if any. */
  datatype Sink = Sink(pending: Option<seq<PositionUpdate>>)

  const Idle := Sink(None)

  /** What the sink observes: a new snapshot, or the quiet period (one
      second after the last schedule) elapsing with no schedule in between. */
  datatype SinkEvent = Schedule(snapshot: seq<PositionUpdate>) | QuietPeriodElapsed

  datatype SinkStep = SinkStep(sink: Sink, flushed: Option<seq<PositionUpdate>>)

  /** A schedule replaces the pending snapshot; the quiet period elapsing
      flushes the pending snapshot, if there is one, and empties the slot. */
  function StepSink(s: Sink, e: SinkEvent): (r: SinkStep)
    ensures e.Schedule? ==> r.sink.pending == Some(e.snapshot) && r.flushed.None?
    ensures e.QuietPeriodElapsed? ==> r.sink == Idle && r.flushed == s.pending
  {
    match e
    case Schedule(snap) => SinkStep(Sink(Some(snap)), None)
    case QuietPeriodElapsed => SinkStep(Idle, s.pending)
  }

  datatype SinkRun = SinkRun(sink: Sink, flushes: seq<seq<PositionUpdate>>)

  /** The final slot and the snapshots flushed, in order, over a run of
      events. */
  function RunSink(s: Sink, events: seq<SinkEvent>): (r: SinkRun)
    ensures |events| == 0 ==> r == SinkRun(s, [])
    ensures |r.flushes| <= |events|
    ensures |events| > 0 && events[|events| - 1].QuietPeriodElapsed? ==> r.sink == Idle
    ensures |events| > 0 && events[|events| - 1].Schedule? ==>
              r.sink == Sink(Some(events[|events| - 1].snapshot))
    decreases |events|
  {
    if |events| == 0 then SinkRun(s, [])
    else
      var step := StepSink(s, events[0]);
      var rest := RunSink(step.sink, events[1..]);
      SinkRun(rest.sink, (if step.flushed.Some? then [step.flushed.value] else []) + rest.flushes)
  }

  function Schedules(snapshots: seq<seq<PositionUpdate>>): (r: seq<SinkEvent>)
    ensures |r| == |snapshots|
    ensures forall i :: 0 <= i < |r| ==> r[i] == Schedule(snapshots[i])
  {
    seq(|snapshots|, i requires 0 <= i < |snapshots| => Schedule(snapshots[i]))
  }

  /** Running two event sequences one after the other. */
  lemma {:induction false} RunSinkAppend(s: Sink, a: seq<SinkEvent>, b: seq<SinkEvent>)
    ensures RunSink(s, a + b) ==
            SinkRun(RunSink(RunSink(s, a).sink, b).sink,
                    RunSink(s, a).flushes + RunSink(RunSink(s, a).sink, b).flushes)
    decreases |a|
  {
    if |a| == 0 {
      assert a + b == b;
    } else {
      assert (a + b)[1..] == a[1..] + b;
      RunSinkAppend(StepSink(s, a[0]).sink, a[1..], b);
    }
  }

  /** A burst of schedules writes nothing and leaves only the last snapshot
      pending. */
  lemma {:induction false} BurstKeepsLast(s: Sink, burst: seq<seq<PositionUpdate>>)
    requires |burst| > 0
    ensures RunSink(s, Schedules(burst)) == SinkRun(Sink(Some(burst[|burst| - 1])), [])
    decreases |burst|
  {
    if |burst| > 1 {
      assert Schedules(burst)[1..] == Schedules(burst[1..]);
      BurstKeepsLast(Sink(Some(burst[0])), burst[1..]);
    }
  }

  /** Coalescing: however many snapshots are scheduled within one quiet
      period, exactly one flush follows, and it carries the last one. */
  lemma Coalesce(s: Sink, burst: seq<seq<PositionUpdate>>)
    requires |burst| > 0
    ensures RunSink(s, Schedules(burst) + [QuietPeriodElapsed]) ==
            SinkRun(Idle, [burst[|burst| - 1]])
  {
    BurstKeepsLast(s, burst);
    RunSinkAppend(s, Schedules(burst), [QuietPeriodElapsed]);
  }

  /** Two bursts separated by a quiet period are flushed independently. */
  lemma SeparatedBurstsFlushTwice(s: Sink, first: seq<seq<PositionUpdate>>,
                                  second: seq<seq<PositionUpdate>>)
    requires |first| > 0 && |second| > 0
    ensures RunSink(s, Schedules(first) + [QuietPeriodElapsed] + Schedules(second) + [QuietPeriodElapsed]).flushes ==
            [first[|first| - 1], second[|second| - 1]]
  {
    var a := Schedules(first) + [QuietPeriodElapsed];
    var b := Schedules(second) + [QuietPeriodElapsed];
    Coalesce(s, first);
    Coalesce(Idle, second);
    RunSinkAppend(s, a, b);
    assert a + b == Schedules(first) + [QuietPeriodElapsed] + Schedules(second) + [QuietPeriodElapsed];
  }

  /** With nothing pending, the quiet period elapsing writes nothing. */
  lemma IdleFlushIsSilent()
    ensures RunSink(Idle, [QuietPeriodElapsed]) == SinkRun(Idle, [])
  {
  }

  /** The remote `categories` table, reduced to what the sink writes: the
      position stored for each row id. */
  type PositionTable = map<string, int>

  datatype FlushResult = FlushResult(table: PositionTable, hasError: bool)

  /** A flush issues one `update({ position }).eq("id", id)` per pair of the
      snapshot; `ok[i]` is whether the i-th update succeeded. An update
      whose id has no row changes nothing. Updates are keyed by id and
      independent; a failure is only reported. */
  function ApplyUpdates(table: PositionTable, updates: seq<PositionUpdate>, ok: seq<bool>): (r: FlushResult)
    requires |ok| == |updates|
    ensures r.hasError <==> exists i :: 0 <= i < |ok| && !ok[i]
    ensures r.table.Keys == table.Keys
    decreases |updates|
  {
    if |updates| == 0 then FlushResult(table, false)
    else
      var u := updates[0];
      var t := if ok[0] && u.id in table then table[u.id := u.position] else table;
      var rest := ApplyUpdates(t, updates[1..], ok[1..]);
      assert forall i :: 1 <= i < |ok| ==> ok[i] == ok[1..][i - 1];
      FlushResult(rest.table, !ok[0] || rest.hasError)
  }

  /** After a flush with distinct ids, every row whose update succeeded
      holds its snapshot position, and every other row is as it was. */
  lemma {:induction false} FlushWrites(table: PositionTable, updates: seq<PositionUpdate>, ok: seq<bool>)
    requires |ok| == |updates|
    requires forall i, j :: 0 <= i < j < |updates| ==> updates[i].id != updates[j].id
    ensures var r := ApplyUpdates(table, updates, ok);
            (forall i :: 0 <= i < |updates| && ok[i] && updates[i].id in table ==>
               r.table[updates[i].id] == updates[i].position) &&
            (forall id :: id in table && (forall i :: 0 <= i < |updates| && ok[i] ==> updates[i].id != id) ==>
               r.table[id] == table[id])
    decreases |updates|
  {
    if |updates| > 0 {
      var u := updates[0];
      var t := if ok[0] && u.id in table then table[u.id := u.position] else table;
      FlushWrites(t, updates[1..], ok[1..]);
      var r := ApplyUpdates(table, updates, ok);
      assert r == FlushResult(ApplyUpdates(t, updates[1..], ok[1..]).table, !ok[0] || ApplyUpdates(t, updates[1..], ok[1..]).hasError);
      forall i | 0 <= i < |updates| && ok[i] && updates[i].id in table
        ensures r.table[updates[i].id] == updates[i].position
      {
        if i > 0 {
          assert updates[1..][i - 1] == updates[i];
        }
      }
      forall id | id in table && (forall i :: 0 <= i < |updates| && ok[i] ==> updates[i].id != id)
        ensures r.table[id] == table[id]
      {
        forall i | 0 <= i < |updates[1..]| && ok[1..][i]
          ensures updates[1..][i].id != id
        {
          assert updates[1..][i] == updates[i + 1];
        }
      }
    }
  }

  /** End to end: when every update of a flushed drop succeeds, the remote
      table holds each category's index in the dispatched order. */
  lemma FlushMirrorsLocalOrder(table: PositionTable, u: seq<Category>)
    requires DistinctIds(u) && DensePositions(u)
    requires forall i :: 0 <= i < |u| ==> u[i].id in table
    ensures var ok := seq(|u|, i => true);
            var r := ApplyUpdates(table, Snapshot(u), ok);
            !r.hasError && forall k :: 0 <= k < |u| ==> r.table[u[k].id] == k
  {
    var ok := seq(|u|, i => true);
    FlushWrites(table, Snapshot(u), ok);
  }
}
