/**
 What a log says about one entry of a list.

 Seen from one key, every log entry either joins with a record, removes, or is of no concern.
 A list that keeps the first record and drops it on removal then holds exactly the record of
 the first join since the last removal.
 */
module Traces {
  import opened Basics

  datatype Mark<+R> = Join(record: R) | Remove | Other

  // The entry as a list keeps it: a join is ignored while a record is there.
  function Current<R>(marks: seq<Mark<R>>): Option<R> {
    if marks == [] then None else
      After(Current(marks[..|marks| - 1]), marks[|marks| - 1])
  }

  function After<R>(before: Option<R>, mark: Mark<R>): Option<R> {
    match mark
    case Join(r) => if before.Some? then before else Some(r)
    case Remove => None
    case Other => before
  }

  predicate RemovedBetween<R>(marks: seq<Mark<R>>, i: nat, j: nat)
    requires j <= |marks|
  {
    exists r :: i < r < j && marks[r].Remove?
  }

  // A join that no later entry removes.
  predicate Stands<R>(marks: seq<Mark<R>>, i: nat)
    requires i < |marks|
  {
    marks[i].Join? && !RemovedBetween(marks, i, |marks|)
  }

  // A join that stands, and the first one since the last removal.
  predicate Founds<R>(marks: seq<Mark<R>>, i: nat)
    requires i < |marks|
  {
    Stands(marks, i) && forall j :: 0 <= j < i && marks[j].Join? ==> RemovedBetween(marks, j, i)
  }

  predicate IsListedBy<R>(marks: seq<Mark<R>>) {
    exists i :: 0 <= i < |marks| && Stands(marks, i)
  }

  ghost predicate IsRecordedBy<R>(marks: seq<Mark<R>>, r: R) {
    exists i :: 0 <= i < |marks| && Founds(marks, i) && marks[i] == Join(r)
  }

  // The entry that founds what is listed.
  lemma {:induction false} SomeJoinFounds<R>(marks: seq<Mark<R>>) returns (f: nat)
    requires Current(marks).Some?
    ensures f < |marks| && Founds(marks, f) && marks[f] == Join(Current(marks).value)
  {
    var n := |marks| - 1;
    var front := marks[..n];
    if Current(front).Some? {
      f := SomeJoinFounds(front);
      assert forall r :: 0 <= r < n ==> front[r] == marks[r];
      assert !marks[n].Remove?;
      assert !RemovedBetween(marks, f, |marks|);
      forall j | 0 <= j < f && marks[j].Join? ensures RemovedBetween(marks, j, f) {
        assert front[j].Join? && RemovedBetween(front, j, f);
      }
    } else {
      f := n;
      forall j | 0 <= j < n && marks[j].Join? ensures RemovedBetween(marks, j, n) {
        NotListedIsRemoved(front, j);
        var r :| j < r < n && front[r].Remove?;
        assert marks[r].Remove?;
      }
    }
  }

  // While nothing is listed, every join has been removed.
  lemma {:induction false} NotListedIsRemoved<R>(marks: seq<Mark<R>>, j: nat)
    requires Current(marks).None? && j < |marks| && marks[j].Join?
    ensures RemovedBetween(marks, j, |marks|)
  {
    var n := |marks| - 1;
    if marks[n].Remove? {
      assert RemovedBetween(marks, j, |marks|);
    } else {
      var front := marks[..n];
      NotListedIsRemoved(front, j);
      var r :| j < r < n && front[r].Remove?;
      assert marks[r].Remove?;
    }
  }

  /** The list holds exactly the record of the first join since the last removal. */
  lemma CurrentIff<R>(marks: seq<Mark<R>>, r: R)
    ensures Current(marks) == Some(r) <==> IsRecordedBy(marks, r)
    ensures Current(marks).Some? <==> IsListedBy(marks)
  {
    if Current(marks).Some? {
      var f := SomeJoinFounds(marks);
    } else if i :| 0 <= i < |marks| && Stands(marks, i) {
      NotListedIsRemoved(marks, i);
      assert false;
    }
  }

  // ---------- Order ----------

  // `at` maps the elements of `a`, in order, to equal ones of `b`.
  ghost predicate Embeds<R>(a: seq<R>, b: seq<R>, at: seq<nat>) {
    && |at| == |a|
    && (forall i :: 0 <= i < |a| ==> at[i] < |b| && a[i] == b[at[i]])
    && (forall i, j :: 0 <= i < j < |a| ==> at[i] < at[j])
  }

  // What remains of `b` when some elements are left out.
  ghost predicate IsSubsequence<R>(a: seq<R>, b: seq<R>) {
    exists at :: Embeds(a, b, at)
  }

  lemma NoneIsSubsequence<R>(b: seq<R>)
    ensures IsSubsequence([], b)
  {
    assert Embeds([], b, []);
  }

  lemma SubsequenceOfSelf<R>(a: seq<R>)
    ensures IsSubsequence(a, a)
  {
    assert Embeds(a, a, seq(|a|, i requires 0 <= i < |a| => i));
  }

  lemma SubsequenceCons<R>(a: seq<R>, b: seq<R>, x: R)
    requires IsSubsequence(a, b)
    ensures IsSubsequence(a, [x] + b) && IsSubsequence([x] + a, [x] + b)
  {
    var at: seq<nat> :| Embeds(a, b, at);
    var later := seq(|at|, i requires 0 <= i < |at| => at[i] + 1);
    assert Embeds(a, [x] + b, later);
    assert Embeds([x] + a, [x] + b, [0] + later);
  }

  // What remains of the tail remains of the whole, with or without the head.
  lemma SubsequenceOfTail<R>(a: seq<R>, b: seq<R>)
    requires b != [] && IsSubsequence(a, b[1..])
    ensures IsSubsequence(a, b) && IsSubsequence([b[0]] + a, b)
  {
    SubsequenceCons(a, b[1..], b[0]);
    assert [b[0]] + b[1..] == b;
  }

  lemma SubsequenceSnoc<R>(a: seq<R>, b: seq<R>, x: R)
    requires IsSubsequence(a, b)
    ensures IsSubsequence(a, b + [x]) && IsSubsequence(a + [x], b + [x])
  {
    var at: seq<nat> :| Embeds(a, b, at);
    assert Embeds(a, b + [x], at);
    assert Embeds(a + [x], b + [x], at + [|b|]);
  }

  lemma SubsequenceTransitive<R>(a: seq<R>, b: seq<R>, c: seq<R>)
    requires IsSubsequence(a, b) && IsSubsequence(b, c)
    ensures IsSubsequence(a, c)
  {
    var f: seq<nat> :| Embeds(a, b, f);
    var g: seq<nat> :| Embeds(b, c, g);
    assert Embeds(a, c, seq(|a|, i requires 0 <= i < |a| => g[f[i]]));
  }
}
