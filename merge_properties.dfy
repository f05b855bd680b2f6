/** What the subtask merge promises, proved about `SubtaskMerge.Reconcile`
    and stated without reference to the map it uses internally: positions,
    soft-delete behaviour, the appended entries, the length, and what the
    task looks like (and how a second identical update behaves) afterwards. */
module MergeProperties {
  import opened Subtasks
  import opened OrderedMaps
  import opened SubtaskMerge

  /** Ranks a subject by its first occurrence in the request body. */
  ghost function ByFirstOccurrence(items: seq<SubtaskInput>): string -> int {
    k => FirstIndex(items, k)
  }

  /** The map built from the request body has one key per distinct
      subject of the body. */
  lemma {:induction false} BuildMapKeys(items: seq<SubtaskInput>)
    ensures forall k :: Has(BuildMap(items), k) <==> Mentions(items, k)
    decreases |items|
  {
    if items != [] {
      var n := |items| - 1;
      BuildMapKeys(items[..n]);
      forall k ensures Mentions(items, k) <==> Mentions(items[..n], k) || items[n].subject == k {
        MentionsSnoc(items, k);
      }
    }
  }

  /** `BuildMapKeys` for one subject. */
  lemma {:induction false} BuildMapHas(items: seq<SubtaskInput>, k: string)
    ensures Has(BuildMap(items), k) <==> Mentions(items, k)
  {
    BuildMapKeys(items);
  }

  /** The map keeps, for each subject, the LAST item of the body with it. */
  lemma {:induction false} BuildMapValues(items: seq<SubtaskInput>)
    ensures forall k :: Has(BuildMap(items), k) ==> Mentions(items, k) && Get(BuildMap(items), k) == items[LastIndex(items, k)]
    decreases |items|
  {
    if items != [] {
      var n := |items| - 1;
      var prefix := items[..n];
      BuildMapKeys(items);
      BuildMapValues(prefix);
      forall k | Has(BuildMap(items), k)
        ensures Get(BuildMap(items), k) == items[LastIndex(items, k)]
      {
        SetGet(BuildMap(prefix), items[n].subject, items[n], k);
        if k != items[n].subject {
          assert LastIndex(items, k) == LastIndex(prefix, k);
          assert prefix[LastIndex(prefix, k)] == items[LastIndex(prefix, k)];
        }
      }
    }
  }

  /** Appending an item to the body keeps the rank of every subject
      already in the map, and that rank stays below the new position. */
  lemma {:induction false} BuildMapRankKept(items: seq<SubtaskInput>, i: nat)
    requires items != [] && i < |BuildMap(items[..|items| - 1])|
    ensures var n := |items| - 1; var k := BuildMap(items[..n])[i].0;
      FirstIndex(items, k) == FirstIndex(items[..n], k) < n
  {
    var n := |items| - 1;
    var before := BuildMap(items[..n]);
    GetAt(before, i);
    BuildMapHas(items[..n], before[i].0);
    FirstIndexSnoc(items, before[i].0);
  }

  /** The keys of `m` appear in the order of their first occurrence in
      `items`. */
  ghost predicate InFirstOccurrenceOrder(m: seq<(string, SubtaskInput)>, items: seq<SubtaskInput>) {
    forall p, q :: 0 <= p < q < |m| ==> FirstIndex(items, m[p].0) < FirstIndex(items, m[q].0)
  }

  /** `InFirstOccurrenceOrder` is `IncreasingBy` the first-occurrence rank. */
  lemma {:induction false} FirstOccurrenceOrderIsIncreasing(m: seq<(string, SubtaskInput)>, items: seq<SubtaskInput>)
    ensures InFirstOccurrenceOrder(m, items) <==> IncreasingBy(m, ByFirstOccurrence(items))
  {
  }

  /** `set` on a subject already in the map keeps the order. */
  lemma {:induction false} BuildMapOrderReplace(items: seq<SubtaskInput>)
    requires items != []
    requires InFirstOccurrenceOrder(BuildMap(items[..|items| - 1]), items[..|items| - 1])
    requires Has(BuildMap(items[..|items| - 1]), items[|items| - 1].subject)
    ensures InFirstOccurrenceOrder(BuildMap(items), items)
  {
    var n := |items| - 1;
    var x := items[n];
    var before := BuildMap(items[..n]);
    var m := BuildMap(items);
    SetPositions(before, x.subject, x);
    forall p, q | 0 <= p < q < |m| ensures FirstIndex(items, m[p].0) < FirstIndex(items, m[q].0) {
      assert m[p].0 == before[p].0 && m[q].0 == before[q].0;
      BuildMapRankKept(items, p);
      BuildMapRankKept(items, q);
    }
  }

  /** A key ranked after every key of an ordered list can go last. */
  lemma {:induction false} ExtendOrder(before: seq<(string, SubtaskInput)>, m: seq<(string, SubtaskInput)>, items: seq<SubtaskInput>)
    requires items != []
    requires InFirstOccurrenceOrder(before, items[..|items| - 1])
    requires |m| == |before| + 1
    requires forall i :: 0 <= i < |before| ==> m[i].0 == before[i].0
    requires forall i :: 0 <= i < |before| ==>
      FirstIndex(items, before[i].0) == FirstIndex(items[..|items| - 1], before[i].0) < |items| - 1
    requires FirstIndex(items, m[|before|].0) == |items| - 1
    ensures InFirstOccurrenceOrder(m, items)
  {
    forall p, q | 0 <= p < q < |m| ensures FirstIndex(items, m[p].0) < FirstIndex(items, m[q].0) {
      if q < |before| {
        assert FirstIndex(items, before[p].0) < FirstIndex(items, before[q].0);
      }
    }
  }

  /** `set` on a new subject appends it after every key already there. */
  lemma {:induction false} BuildMapOrderAppend(items: seq<SubtaskInput>)
    requires items != []
    requires InFirstOccurrenceOrder(BuildMap(items[..|items| - 1]), items[..|items| - 1])
    requires !Has(BuildMap(items[..|items| - 1]), items[|items| - 1].subject)
    ensures InFirstOccurrenceOrder(BuildMap(items), items)
  {
    var n := |items| - 1;
    var x := items[n];
    var before := BuildMap(items[..n]);
    SetPositions(before, x.subject, x);
    BuildMapHas(items[..n], x.subject);
    FirstIndexSnoc(items, x.subject);
    forall i | 0 <= i < |before|
      ensures FirstIndex(items, before[i].0) == FirstIndex(items[..n], before[i].0) < n
    {
      BuildMapRankKept(items, i);
    }
    ExtendOrder(before, BuildMap(items), items);
  }

  /** The keys of the map are in the order of their first occurrence in
      the body. */
  lemma {:induction false} BuildMapOrder(items: seq<SubtaskInput>)
    ensures InFirstOccurrenceOrder(BuildMap(items), items)
    decreases |items|
  {
    if items != [] {
      var n := |items| - 1;
      BuildMapOrder(items[..n]);
      if Has(BuildMap(items[..n]), items[n].subject) {
        BuildMapOrderReplace(items);
      } else {
        BuildMapOrderAppend(items);
      }
    }
  }

  /** The reconcile loop writes one entry per current entry. */
  lemma {:induction false} WalkLength(current: seq<Subtask>, pending: Pending, now: Timestamp)
    ensures |Walk(current, pending, now).0| == |current|
    decreases |current|
  {
    if current != [] {
      WalkLength(current[..|current| - 1], pending, now);
    }
  }

  /** The reconcile loop consumes exactly the live subjects of `current`. */
  lemma {:induction false} WalkPending(current: seq<Subtask>, pending: Pending, now: Timestamp)
    ensures Walk(current, pending, now).1 == Without(pending, LiveSubjects(current))
    decreases |current|
  {
    if current == [] {
      WithoutAbsent(pending, {});
    } else {
      var n := |current| - 1;
      var prefix := current[..n];
      WalkPending(prefix, pending, now);
      var rest := Walk(prefix, pending, now).1;
      var e := current[n];
      var live := LiveSubjects(prefix);
      if e.IsLive() {
        WithoutWithout(pending, live, {e.subject});
        if !Has(rest, e.subject) {
          WithoutAbsent(rest, {e.subject});
        }
      }
    }
  }

  /** Each written entry is decided by the items not consumed by the live
      entries before it. */
  lemma {:induction false} WalkEntries(current: seq<Subtask>, pending: Pending, now: Timestamp, i: nat)
    requires i < |current|
    ensures |Walk(current, pending, now).0| == |current|
    ensures Walk(current, pending, now).0[i] == Visit(current[i], Without(pending, LiveSubjects(current[..i])), now)
    decreases |current|
  {
    var n := |current| - 1;
    var prefix := current[..n];
    WalkLength(current, pending, now);
    WalkLength(prefix, pending, now);
    if i < n {
      WalkEntries(prefix, pending, now, i);
      assert prefix[i] == current[i] && prefix[..i] == current[..i];
    } else {
      WalkPending(prefix, pending, now);
    }
  }

  /** Every position of the current list, as the handler leaves it: a
      soft-deleted entry is kept as it is; a live entry whose subject the
      request carries and no earlier live entry took is replaced by the last
      request item with that subject; every other live entry is soft-deleted
      at `now`, its other fields kept. */
  lemma {:induction false} ReconcileAt(current: seq<Subtask>, incoming: seq<SubtaskInput>, now: Timestamp, i: nat)
    requires i < |current|
    ensures |Reconcile(current, incoming, now)| >= |current|
    ensures Reconcile(current, incoming, now)[i] ==
      var e := current[i];
      if !e.IsLive() then e
      else if Mentions(incoming, e.subject) && e.subject !in LiveSubjects(current[..i]) then
        ToSubtask(incoming[LastIndex(incoming, e.subject)])
      else SoftDeleted(e, now)
  {
    var m := BuildMap(incoming);
    BuildMapKeys(incoming);
    BuildMapValues(incoming);
    WalkEntries(current, m, now, i);
    var e := current[i];
    if e.IsLive() && Has(Without(m, LiveSubjects(current[..i])), e.subject) {
      WithoutGet(m, LiveSubjects(current[..i]), e.subject);
    }
  }

  /** The items the reconcile loop leaves in the map: those whose subject
      no live current entry carries. */
  ghost function Leftover(current: seq<Subtask>, incoming: seq<SubtaskInput>): Pending {
    Without(BuildMap(incoming), LiveSubjects(current))
  }

  /** The written list is one entry per current entry followed by the
      leftover items. */
  lemma {:induction false} ReconcileSplit(current: seq<Subtask>, incoming: seq<SubtaskInput>, now: Timestamp)
    ensures var r := Reconcile(current, incoming, now);
      && |r| == |current| + |Leftover(current, incoming)|
      && r[|current|..] == NewEntries(Leftover(current, incoming))
  {
    var m := BuildMap(incoming);
    WalkLength(current, m, now);
    WalkPending(current, m, now);
  }

  /** The list grows by one entry per request subject that no live current
      entry carries; nothing is dropped. */
  lemma {:induction false} ReconcileLength(current: seq<Subtask>, incoming: seq<SubtaskInput>, now: Timestamp)
    ensures |Reconcile(current, incoming, now)| == |current| + |SubjectSet(incoming) - LiveSubjects(current)|
  {
    ReconcileSplit(current, incoming, now);
    BuildMapKeys(incoming);
    assert KeySet(Leftover(current, incoming)) == SubjectSet(incoming) - LiveSubjects(current);
  }

  /** Each leftover item is the last request item with its subject, a
      subject no live current entry carries. */
  lemma {:induction false} LeftoverEntry(current: seq<Subtask>, incoming: seq<SubtaskInput>, i: nat)
    requires i < |Leftover(current, incoming)|
    ensures var (k, item) := Leftover(current, incoming)[i];
      && Mentions(incoming, k) && k !in LiveSubjects(current)
      && item == incoming[LastIndex(incoming, k)] && item.subject == k
  {
    var rest := Leftover(current, incoming);
    GetAt(rest, i);
    WithoutGet(BuildMap(incoming), LiveSubjects(current), rest[i].0);
    BuildMapValues(incoming);
  }

  /** Every appended entry is a request subject that no live current entry
      carries, stored with the fields of its last occurrence, not deleted. */
  lemma {:induction false} ReconcileAppendedEntries(current: seq<Subtask>, incoming: seq<SubtaskInput>, now: Timestamp, j: nat)
    requires |current| <= j < |Reconcile(current, incoming, now)|
    ensures var r := Reconcile(current, incoming, now);
      && Mentions(incoming, r[j].subject)
      && r[j].subject !in LiveSubjects(current)
      && r[j] == ToSubtask(incoming[LastIndex(incoming, r[j].subject)])
  {
    ReconcileSplit(current, incoming, now);
    var r := Reconcile(current, incoming, now);
    assert r[j] == r[|current|..][j - |current|];
    LeftoverEntry(current, incoming, j - |current|);
  }

  /** Every request subject that no live current entry carries is
      appended. */
  lemma {:induction false} ReconcileAppendedCover(current: seq<Subtask>, incoming: seq<SubtaskInput>, now: Timestamp, k: string)
    requires Mentions(incoming, k) && k !in LiveSubjects(current)
    ensures var r := Reconcile(current, incoming, now);
      exists j :: |current| <= j < |r| && r[j].subject == k
  {
    ReconcileSplit(current, incoming, now);
    BuildMapKeys(incoming);
    var r := Reconcile(current, incoming, now);
    var rest := Leftover(current, incoming);
    HasAt(rest, k);
    var i :| 0 <= i < |rest| && rest[i].0 == k;
    assert r[|current| + i] == r[|current|..][i];
    LeftoverEntry(current, incoming, i);
  }

  /** The leftover items keep the first-occurrence order of the map. */
  lemma {:induction false} LeftoverOrder(current: seq<Subtask>, incoming: seq<SubtaskInput>)
    ensures InFirstOccurrenceOrder(Leftover(current, incoming), incoming)
  {
    var m := BuildMap(incoming);
    BuildMapOrder(incoming);
    FirstOccurrenceOrderIsIncreasing(m, incoming);
    WithoutKeepsOrder(m, LiveSubjects(current), ByFirstOccurrence(incoming));
    FirstOccurrenceOrderIsIncreasing(Leftover(current, incoming), incoming);
  }

  /** The subject of an appended entry is the key of its leftover item. */
  lemma {:induction false} AppendedSubject(current: seq<Subtask>, incoming: seq<SubtaskInput>, now: Timestamp, j: nat)
    requires |current| <= j < |Reconcile(current, incoming, now)|
    ensures j - |current| < |Leftover(current, incoming)|
    ensures Reconcile(current, incoming, now)[j].subject == Leftover(current, incoming)[j - |current|].0
  {
    ReconcileSplit(current, incoming, now);
    var r := Reconcile(current, incoming, now);
    assert r[j] == r[|current|..][j - |current|];
    LeftoverEntry(current, incoming, j - |current|);
  }

  /** The appended entries follow the order in which their subjects first
      occur in the request, so each subject is appended once. */
  lemma {:induction false} ReconcileAppendedOrder(current: seq<Subtask>, incoming: seq<SubtaskInput>, now: Timestamp)
    ensures var r := Reconcile(current, incoming, now);
      forall p, q :: |current| <= p < q < |r| ==>
        FirstIndex(incoming, r[p].subject) < FirstIndex(incoming, r[q].subject)
  {
    LeftoverOrder(current, incoming);
    var r := Reconcile(current, incoming, now);
    var rest := Leftover(current, incoming);
    forall p, q | |current| <= p < q < |r|
      ensures FirstIndex(incoming, r[p].subject) < FirstIndex(incoming, r[q].subject)
    {
      AppendedSubject(current, incoming, now, p);
      AppendedSubject(current, incoming, now, q);
    }
  }
}
