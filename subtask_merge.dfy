/** The subtask reconciliation inside the update handler: the request body
    is turned into a subject-keyed map, the task's current subtasks (soft-
    deleted ones included) are matched against it in place, and the
    subjects nobody matched are appended. `Reconcile` is the specification,
    `MergeSubtasks` the step-by-step algorithm proved equal to it. */
module SubtaskMerge {
  import opened Subtasks
  import opened OrderedMaps

  /** The subject -> item map built from the request body. */
  type Pending = OrderedMap<string, SubtaskInput>

  /** The map after `set`ting every item of `items`, in order. */
  function BuildMap(items: seq<SubtaskInput>): Pending
    decreases |items|
  {
    if items == [] then []
    else
      var n := |items| - 1;
      Set(BuildMap(items[..n]), items[n].subject, items[n])
  }

  /** The entry the reconcile loop leaves at the position of `e`, given the
      items still pending. */
  function Visit(e: Subtask, pending: Pending, now: Timestamp): (r: Subtask)
    ensures r.IsLive() <==> e.IsLive() && Has(pending, e.subject)
    ensures !r.IsLive() ==> r.subject == e.subject && r.status == e.status && r.deadline == e.deadline
  {
    if !e.IsLive() then e
    else if !Has(pending, e.subject) then SoftDeleted(e, now)
    else ToSubtask(Get(pending, e.subject))
  }

  /** The pending map after visiting `e`: a live entry consumes its subject. */
  function Consume(e: Subtask, pending: Pending): (r: Pending)
    ensures forall k :: Has(r, k) <==> Has(pending, k) && !(e.IsLive() && k == e.subject)
  {
    if e.IsLive() && Has(pending, e.subject) then Delete(pending, e.subject) else pending
  }

  /** The entries written so far and the items still pending once the
      reconcile loop has visited every entry of `current`. */
  function Walk(current: seq<Subtask>, pending: Pending, now: Timestamp): (seq<Subtask>, Pending)
    decreases |current|
  {
    if current == [] then ([], pending)
    else
      var n := |current| - 1;
      var (done, rest) := Walk(current[..n], pending, now);
      (done + [Visit(current[n], rest, now)], Consume(current[n], rest))
  }

  /** The stored form of the pending items, in map order. */
  function NewEntries(pending: seq<(string, SubtaskInput)>): seq<Subtask> {
    seq(|pending|, j requires 0 <= j < |pending| => ToSubtask(pending[j].1))
  }

  /** The list the update handler writes back for the task. */
  function Reconcile(current: seq<Subtask>, incoming: seq<SubtaskInput>, now: Timestamp): seq<Subtask> {
    var (done, rest) := Walk(current, BuildMap(incoming), now);
    done + NewEntries(rest)
  }

  /** First loop of the handler: `map.set(subject, item)` for every item. */
  method FillPending(incoming: seq<SubtaskInput>) returns (pending: Pending)
    ensures pending == BuildMap(incoming)
  {
    pending := [];
    for idx := 0 to |incoming|
      invariant pending == BuildMap(incoming[..idx])
    {
      var subtask := incoming[idx];
      assert incoming[..idx + 1][..idx] == incoming[..idx];
      pending := Set(pending, subtask.subject, subtask);
    }
    assert incoming[..|incoming|] == incoming;
  }

  /** One more step of `Walk`. */
  lemma {:induction false} WalkStep(current: seq<Subtask>, pending0: Pending, now: Timestamp, idx: nat)
    requires idx < |current|
    ensures var (done, rest) := Walk(current[..idx], pending0, now);
      Walk(current[..idx + 1], pending0, now) == (done + [Visit(current[idx], rest, now)], Consume(current[idx], rest))
  {
    assert current[..idx + 1][..idx] == current[..idx];
  }

  /** Second loop: visit the current entries by index, skipping deleted
      ones, soft-deleting unmatched ones and replacing matched ones, and
      consume every matched subject from the map. */
  method ReconcileInPlace(current: seq<Subtask>, pending0: Pending, now: Timestamp)
    returns (data: seq<Subtask>, pending: Pending)
    ensures (data, pending) == Walk(current, pending0, now)
  {
    data, pending := current, pending0;
    for idx := 0 to |current|
      invariant |data| == |current|
      invariant data[..idx] == Walk(current[..idx], pending0, now).0
      invariant pending == Walk(current[..idx], pending0, now).1
      invariant forall j :: idx <= j < |data| ==> data[j] == current[j]
    {
      WalkStep(current, pending0, now, idx);
      ghost var before := data;
      var entry := data[idx];
      if !entry.IsLive() {
        assert data[..idx + 1] == data[..idx] + [entry];
        continue;
      } else if !Has(pending, entry.subject) {
        data := data[idx := SoftDeleted(entry, now)];
      } else {
        data := data[idx := ToSubtask(Get(pending, entry.subject))];
        pending := Delete(pending, entry.subject);
      }
      assert data[..idx + 1] == before[..idx] + [data[idx]];
    }
    assert current[..|current|] == current;
    assert data == data[..|current|];
  }

  /** Third loop: push every item left in the map, in map order. */
  method AppendPending(data0: seq<Subtask>, pending: Pending) returns (data: seq<Subtask>)
    ensures data == data0 + NewEntries(pending)
  {
    data := data0;
    for j := 0 to |pending|
      invariant data == data0 + NewEntries(pending[..j])
    {
      assert NewEntries(pending[..j + 1]) == NewEntries(pending[..j]) + [ToSubtask(pending[j].1)];
      data := data + [ToSubtask(pending[j].1)];
    }
    assert pending[..|pending|] == pending;
  }

  /** The merge as the handler runs it. */
  method MergeSubtasks(current: seq<Subtask>, incoming: seq<SubtaskInput>, now: Timestamp)
    returns (data: seq<Subtask>)
    ensures data == Reconcile(current, incoming, now)
  {
    var pending := FillPending(incoming);
    data, pending := ReconcileInPlace(current, pending, now);
    data := AppendPending(data, pending);
  }
}
