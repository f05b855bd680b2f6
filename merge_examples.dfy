/** Worked cases of the merge on small lists. */
module MergeExamples {
  import opened Subtasks
  import opened OrderedMaps
  import opened SubtaskMerge

  /** Two request items with the same subject: one entry, the later one's
      status. */
  lemma DuplicateRequestSubject(now: Timestamp)
    ensures Reconcile([], [SubtaskInput("a", "x", 10), SubtaskInput("a", "y", 20)], now)
      == [Subtask("a", "y", 20, None)]
  {
    var items := [SubtaskInput("a", "x", 10), SubtaskInput("a", "y", 20)];
    assert items[..1] == [items[0]];
    assert [items[0]][..0] == [];
    assert BuildMap(items[..1]) == [("a", items[0])];
    var m := BuildMap(items);
    assert m == [("a", items[1])];
    assert NewEntries(m) == [ToSubtask(items[1])];
  }

  /** An empty request soft-deletes the only live entry, fields kept. */
  lemma EmptyRequest(now: Timestamp)
    ensures Reconcile([Subtask("a", "todo", 10, None)], [], now)
      == [Subtask("a", "todo", 10, Some(now))]
  {
  }

  /** Unmatched entries are soft-deleted in place, matched ones replaced in
      place, new subjects appended. */
  lemma ReplaceDeleteAppend(now: Timestamp)
    ensures Reconcile([Subtask("a", "todo", 10, None), Subtask("b", "todo", 10, None)],
                      [SubtaskInput("b", "done", 20), SubtaskInput("c", "todo", 30)], now)
      == [Subtask("a", "todo", 10, Some(now)), Subtask("b", "done", 20, None), Subtask("c", "todo", 30, None)]
  {
    var current := [Subtask("a", "todo", 10, None), Subtask("b", "todo", 10, None)];
    var items := [SubtaskInput("b", "done", 20), SubtaskInput("c", "todo", 30)];
    assert BuildMap(items[..1]) == [("b", items[0])];
    assert "b" != "c" && "a" != "b" && "a" != "c";
    assert Set([("b", items[0])], "c", items[1]) == [("b", items[0])] + Set([], "c", items[1]);
    var m := BuildMap(items);
    WalkStep(current, m, now, 0);
    assert Walk(current[..1], m, now).0 == [SoftDeleted(current[0], now)];
    assert Without(m[1..], {"b"}) == [("c", items[1])];
    WalkStep(current, m, now, 1);
    assert Walk(current, m, now).0 == [SoftDeleted(current[0], now), ToSubtask(items[0])];
  }
}
