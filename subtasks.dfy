/** The records the subtask update handler works on: a stored subtask, with
    its optional soft-delete mark, and an incoming client item. */
module Subtasks {

  datatype Option<T> = None | Some(value: T)

  /** A point in time (milliseconds since the epoch). */
  type Timestamp = int

  /** A subtask as it is stored inside a task. `deletedAt` present means
      the subtask is soft-deleted; it stays in storage. */
  datatype Subtask = Subtask(subject: string, status: string, deadline: Timestamp, deletedAt: Option<Timestamp>)
  {
    predicate IsLive() { deletedAt.None? }
  }

  /** One element of the update request body: `{ subject, status, deadline }`. */
  datatype SubtaskInput = SubtaskInput(subject: string, status: string, deadline: Timestamp)

  /** The stored form of an incoming item (a value copy, as `structuredClone`
      makes): same fields, not deleted. */
  function ToSubtask(item: SubtaskInput): Subtask
  {
    Subtask(item.subject, item.status, item.deadline, None)
  }

  /** The soft-deleted form of an entry: every field kept, `deletedAt` set. */
  function SoftDeleted(s: Subtask, now: Timestamp): Subtask
  {
    s.(deletedAt := Some(now))
  }

  /** True when some incoming item carries subject `k`. */
  predicate Mentions(items: seq<SubtaskInput>, k: string) {
    exists i :: 0 <= i < |items| && items[i].subject == k
  }

  /** The distinct subjects of the incoming items. */
  function SubjectSet(items: seq<SubtaskInput>): set<string> {
    set i | 0 <= i < |items| :: items[i].subject
  }

  /** Index of the first incoming item with subject `k`, or `|items|` when
      there is none. */
  function FirstIndex(items: seq<SubtaskInput>, k: string): (i: nat)
    ensures i <= |items|
    ensures i < |items| <==> Mentions(items, k)
    ensures i < |items| ==> items[i].subject == k
    ensures forall j :: 0 <= j < i ==> items[j].subject != k
    decreases |items|
  {
    if items == [] then 0
    else
      var n := |items| - 1;
      assert forall j :: 0 <= j < n ==> items[..n][j] == items[j];
      var i := FirstIndex(items[..n], k);
      if i < n then i else if items[n].subject == k then n else |items|
  }

  /** Index of the last incoming item with subject `k`. */
  function LastIndex(items: seq<SubtaskInput>, k: string): (i: nat)
    requires Mentions(items, k)
    ensures i < |items| && items[i].subject == k
    ensures forall j :: i < j < |items| ==> items[j].subject != k
    decreases |items|
  {
    var n := |items| - 1;
    if items[n].subject == k then
      n
    else
      assert Mentions(items[..n], k) by {
        var j :| 0 <= j < |items| && items[j].subject == k;
        assert items[..n][j] == items[j];
      }
      LastIndex(items[..n], k)
  }

  /** The subjects of the live (not soft-deleted) entries of `s`. */
  function LiveSubjects(s: seq<Subtask>): (r: set<string>)
    ensures forall k :: k in r <==> exists i :: 0 <= i < |s| && s[i].IsLive() && s[i].subject == k
    decreases |s|
  {
    if s == [] then {}
    else
      var n := |s| - 1;
      var before := LiveSubjects(s[..n]);
      assert forall i :: 0 <= i < n ==> s[..n][i] == s[i];
      if s[n].IsLive() then before + {s[n].subject} else before
  }

  /** A subject that some live entry carries has a first live entry with it. */
  lemma {:induction false} FirstLiveWith(s: seq<Subtask>, k: string) returns (i: nat)
    requires k in LiveSubjects(s)
    ensures i < |s| && s[i].IsLive() && s[i].subject == k
    ensures k !in LiveSubjects(s[..i])
    decreases |s|
  {
    var n := |s| - 1;
    if k in LiveSubjects(s[..n]) {
      i := FirstLiveWith(s[..n], k);
      assert s[..n][..i] == s[..i];
    } else {
      i := n;
    }
  }

  /** `Mentions` on a list that ends with `items[n]`. */
  lemma {:induction false} MentionsSnoc(items: seq<SubtaskInput>, k: string)
    requires items != []
    ensures Mentions(items, k) <==> Mentions(items[..|items| - 1], k) || items[|items| - 1].subject == k
  {
  }

  /** `FirstIndex` on a list that ends with `items[n]`. */
  lemma {:induction false} FirstIndexSnoc(items: seq<SubtaskInput>, k: string)
    requires items != []
    ensures Mentions(items[..|items| - 1], k) ==>
      FirstIndex(items, k) == FirstIndex(items[..|items| - 1], k) < |items| - 1
    ensures !Mentions(items[..|items| - 1], k) && items[|items| - 1].subject == k ==>
      FirstIndex(items, k) == |items| - 1
  {
  }
}
