/** What a task's subtask list looks like after an update: the live entries
    are exactly the request's subjects, once each, with the request's last
    values; a second identical update leaves the list as it is; soft-deleted
    entries are never brought back. */
module MergeOutcome {
  import opened Subtasks
  import opened SubtaskMerge
  import opened MergeProperties

  /** The live entries of `s` have pairwise distinct subjects. */
  ghost predicate LiveSubjectsDistinct(s: seq<Subtask>) {
    forall i, j :: 0 <= i < j < |s| && s[i].IsLive() && s[j].IsLive() ==> s[i].subject != s[j].subject
  }

  /** Every position of the current list keeps its subject. */
  lemma {:induction false} ReconcileKeepsSubjects(current: seq<Subtask>, incoming: seq<SubtaskInput>, now: Timestamp, i: nat)
    requires i < |current|
    ensures i < |Reconcile(current, incoming, now)|
    ensures Reconcile(current, incoming, now)[i].subject == current[i].subject
  {
    ReconcileAt(current, incoming, now, i);
  }

  /** Soft-deletion is final: a soft-deleted entry is written back as it
      is, and a live entry either stays live or is soft-deleted at `now`. */
  lemma {:induction false} SoftDeleteIsFinal(current: seq<Subtask>, incoming: seq<SubtaskInput>, now: Timestamp)
    ensures var r := Reconcile(current, incoming, now);
      && |r| >= |current|
      && forall i :: 0 <= i < |current| ==>
           if current[i].IsLive() then r[i].IsLive() || r[i] == SoftDeleted(current[i], now)
           else r[i] == current[i]
  {
    ReconcileLength(current, incoming, now);
    forall i | 0 <= i < |current| {
      ReconcileAt(current, incoming, now, i);
    }
  }

  /** An empty request soft-deletes every live entry in place, keeps every
      soft-deleted one, and appends nothing. */
  lemma {:induction false} EmptyRequestDeletesAll(current: seq<Subtask>, now: Timestamp)
    ensures Reconcile(current, [], now) ==
      seq(|current|, i requires 0 <= i < |current| =>
        if current[i].IsLive() then SoftDeleted(current[i], now) else current[i])
  {
    var r := Reconcile(current, [], now);
    ReconcileLength(current, [], now);
    assert SubjectSet([]) == {};
    forall i | 0 <= i < |current|
      ensures r[i] == if current[i].IsLive() then SoftDeleted(current[i], now) else current[i]
    {
      ReconcileAt(current, [], now, i);
    }
  }

  /** On a task with no subtasks, the result is one new entry per distinct
      request subject, in first-occurrence order, each with its last
      values. */
  lemma {:induction false} EmptyCurrentAppendsAll(incoming: seq<SubtaskInput>, now: Timestamp)
    ensures var r := Reconcile([], incoming, now);
      && r == NewEntries(BuildMap(incoming))
      && |r| == |SubjectSet(incoming)|
      && (forall j :: 0 <= j < |r| ==>
            Mentions(incoming, r[j].subject) && r[j] == ToSubtask(incoming[LastIndex(incoming, r[j].subject)]))
      && (forall p, q :: 0 <= p < q < |r| ==>
            FirstIndex(incoming, r[p].subject) < FirstIndex(incoming, r[q].subject))
  {
    var r := Reconcile([], incoming, now);
    ReconcileLength([], incoming, now);
    ReconcileAppendedOrder([], incoming, now);
    forall j | 0 <= j < |r|
      ensures Mentions(incoming, r[j].subject) && r[j] == ToSubtask(incoming[LastIndex(incoming, r[j].subject)])
    {
      ReconcileAppendedEntries([], incoming, now, j);
    }
  }

  /** A live entry of the merged list is a request subject holding the
      status and deadline of the last request item with that subject. */
  lemma {:induction false} LiveEntryFromRequest(current: seq<Subtask>, incoming: seq<SubtaskInput>, now: Timestamp, i: nat)
    requires i < |Reconcile(current, incoming, now)| && Reconcile(current, incoming, now)[i].IsLive()
    ensures var e := Reconcile(current, incoming, now)[i];
      Mentions(incoming, e.subject) && e == ToSubtask(incoming[LastIndex(incoming, e.subject)])
  {
    if i < |current| {
      ReconcileAt(current, incoming, now, i);
    } else {
      ReconcileAppendedEntries(current, incoming, now, i);
    }
  }

  /** Every request subject has a live entry in the merged list. */
  lemma {:induction false} RequestSubjectIsLive(current: seq<Subtask>, incoming: seq<SubtaskInput>, now: Timestamp, k: string)
    requires Mentions(incoming, k)
    ensures var r := Reconcile(current, incoming, now);
      exists i :: 0 <= i < |r| && r[i].IsLive() && r[i].subject == k
  {
    var r := Reconcile(current, incoming, now);
    if k in LiveSubjects(current) {
      var i := FirstLiveWith(current, k);
      ReconcileAt(current, incoming, now, i);
      assert r[i].IsLive() && r[i].subject == k;
    } else {
      ReconcileAppendedCover(current, incoming, now, k);
      var j :| |current| <= j < |r| && r[j].subject == k;
      ReconcileAppendedEntries(current, incoming, now, j);
      assert r[j].IsLive();
    }
  }

  /** Two live entries of the merged list never share a subject. */
  lemma {:induction false} LiveEntriesDiffer(current: seq<Subtask>, incoming: seq<SubtaskInput>, now: Timestamp, i: nat, j: nat)
    requires i < j < |Reconcile(current, incoming, now)|
    requires Reconcile(current, incoming, now)[i].IsLive() && Reconcile(current, incoming, now)[j].IsLive()
    ensures Reconcile(current, incoming, now)[i].subject != Reconcile(current, incoming, now)[j].subject
  {
    var r := Reconcile(current, incoming, now);
    if j < |current| {
      ReconcileAt(current, incoming, now, i);
      ReconcileAt(current, incoming, now, j);
      assert current[..j][i] == current[i];
    } else if i < |current| {
      ReconcileAt(current, incoming, now, i);
      ReconcileAppendedEntries(current, incoming, now, j);
    } else {
      ReconcileAppendedOrder(current, incoming, now);
    }
  }

  /** After the merge the live entries have distinct subjects, their
      subjects are exactly the request's, and each holds the values of the
      last request item with its subject. */
  lemma {:induction false} LiveAfterMerge(current: seq<Subtask>, incoming: seq<SubtaskInput>, now: Timestamp)
    ensures var r := Reconcile(current, incoming, now);
      && LiveSubjectsDistinct(r)
      && LiveSubjects(r) == SubjectSet(incoming)
      && forall i :: 0 <= i < |r| && r[i].IsLive() ==>
           Mentions(incoming, r[i].subject) && r[i] == ToSubtask(incoming[LastIndex(incoming, r[i].subject)])
  {
    var r := Reconcile(current, incoming, now);
    forall i, j | 0 <= i < j < |r| && r[i].IsLive() && r[j].IsLive()
      ensures r[i].subject != r[j].subject
    {
      LiveEntriesDiffer(current, incoming, now, i, j);
    }
    forall i | 0 <= i < |r| && r[i].IsLive()
      ensures Mentions(incoming, r[i].subject)
      ensures r[i] == ToSubtask(incoming[LastIndex(incoming, r[i].subject)])
    {
      LiveEntryFromRequest(current, incoming, now, i);
    }
    forall k | k in SubjectSet(incoming) ensures k in LiveSubjects(r) {
      RequestSubjectIsLive(current, incoming, now, k);
    }
  }

  /** Submitting the same request again, at any later time, leaves the
      list unchanged. */
  lemma {:induction false} ReconcileIdempotent(current: seq<Subtask>, incoming: seq<SubtaskInput>, now: Timestamp, later: Timestamp)
    ensures var r := Reconcile(current, incoming, now);
      Reconcile(r, incoming, later) == r
  {
    var r := Reconcile(current, incoming, now);
    var r2 := Reconcile(r, incoming, later);
    LiveAfterMerge(current, incoming, now);
    ReconcileLength(r, incoming, later);
    assert SubjectSet(incoming) - LiveSubjects(r) == {};
    forall i | 0 <= i < |r| ensures r2[i] == r[i] {
      ReconcileAt(r, incoming, later, i);
      if r[i].IsLive() {
        assert Mentions(incoming, r[i].subject) by {
          assert r[i].subject in LiveSubjects(r);
        }
        assert r[i].subject !in LiveSubjects(r[..i]) by {
          forall j | 0 <= j < i && r[..i][j].IsLive() ensures r[..i][j].subject != r[i].subject {
            assert r[..i][j] == r[j];
          }
        }
      }
    }
  }

  /** A request subject whose only current entries are soft-deleted is
      appended as a new entry; the deleted entries stay as they are. */
  lemma {:induction false} NoRevival(current: seq<Subtask>, incoming: seq<SubtaskInput>, now: Timestamp, k: string)
    requires Mentions(incoming, k)
    requires forall i :: 0 <= i < |current| && current[i].subject == k ==> !current[i].IsLive()
    ensures var r := Reconcile(current, incoming, now);
      && |r| > |current|
      && (forall i :: 0 <= i < |current| && current[i].subject == k ==> r[i] == current[i])
      && exists j :: |current| <= j < |r| && r[j] == ToSubtask(incoming[LastIndex(incoming, k)])
  {
    var r := Reconcile(current, incoming, now);
    ReconcileLength(current, incoming, now);
    forall i | 0 <= i < |current| && current[i].subject == k ensures r[i] == current[i] {
      ReconcileAt(current, incoming, now, i);
    }
    ReconcileAppendedCover(current, incoming, now, k);
    var j :| |current| <= j < |r| && r[j].subject == k;
    ReconcileAppendedEntries(current, incoming, now, j);
  }
}
