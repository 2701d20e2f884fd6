/**
 What the table primitives guarantee together: the single-latest invariant,
 read-after-write, rollback as the inverse of a put, and the history order.
 */
module FaqLedgerFacts {
  import opened Wrappers
  import opened FaqLedger
  import Sorting

  // ---------------------------------------------------------------- the invariant

  /** The index of the highest-sequence row of `q`. */
  function LastIndex(rs: seq<Record>, q: string): (r: Option<nat>)
    ensures r.None? <==> forall i :: 0 <= i < |rs| ==> rs[i].question != q
    ensures r.Some? ==> r.value < |rs| && rs[r.value].question == q && IsLast(rs, r.value)
  {
    if |rs| == 0 then None
    else if rs[|rs| - 1].question == q then Some(|rs| - 1)
    else LastIndex(rs[..|rs| - 1], q)
  }

  /**
   In a well-formed table a question has at most one latest row, and that row
   has the question's highest sequence number.
   */
  lemma LatestIsUniqueAndNewest(t: Table, i: nat, j: nat)
    requires WellFormed(t)
    requires i < |t.records| && j < |t.records|
    requires t.records[i].question == t.records[j].question
    requires t.records[i].latest
    ensures t.records[j].latest ==> i == j
    ensures t.records[j].faqSeq <= t.records[i].faqSeq
  {
  }

  /** In a well-formed, complete table every question that has rows has a latest row. */
  lemma {:induction false} CompleteHasLatest(t: Table, q: string)
    requires WellFormed(t) && Complete(t)
    requires exists i :: 0 <= i < |t.records| && t.records[i].question == q
    ensures exists i :: 0 <= i < |t.records| && t.records[i].question == q && t.records[i].latest
  {
    var k := LastIndex(t.records, q).value;
    assert t.records[k].latest;
  }

  /** In a well-formed table `get_answer` reports `(True, a)` exactly when `q` has an active row answering `a`. */
  lemma GetAnswerIff(t: Table, q: string, a: string)
    requires WellFormed(t)
    ensures GetAnswer(t, q) == (true, a) <==>
      exists i :: 0 <= i < |t.records| && Active(t.records[i], q) && t.records[i].answer == a
  {
    if GetAnswer(t, q).0 {
      var i :| 0 <= i < |t.records| && Active(t.records[i], q) && t.records[i].answer == GetAnswer(t, q).1;
      forall j | 0 <= j < |t.records| && Active(t.records[j], q)
        ensures t.records[j].answer == GetAnswer(t, q).1
      {
        LatestIsUniqueAndNewest(t, i, j);
      }
    }
  }

  // ---------------------------------------------------------------- put

  /** Every put keeps the table well formed, whether or not its statements fail. */
  lemma PutPreservesWellFormed(t: Table, q: string, a: string, editor: int, time: int, tag: string, delete: bool, fault: Fault)
    requires WellFormed(t)
    ensures WellFormed(Put(t, q, a, editor, time, tag, delete, fault).0)
  {
    var t' := Put(t, q, a, editor, time, tag, delete, fault).0;
    var n := |t.records|;
    forall i | 0 <= i < |t'.records| && t'.records[i].latest
      ensures IsLast(t'.records, i)
    {
      if !fault.FailFirst? && i < n {
        assert t.records[i].latest && t.records[i].question != q;
        assert IsLast(t.records, i);
      }
    }
  }

  /** A successful put keeps a complete table complete. */
  lemma PutPreservesComplete(t: Table, q: string, a: string, editor: int, time: int, tag: string, delete: bool)
    requires WellFormed(t) && Complete(t)
    ensures Complete(Put(t, q, a, editor, time, tag, delete, Healthy).0)
  {
    var t' := Put(t, q, a, editor, time, tag, delete, Healthy).0;
    var n := |t.records|;
    forall i | 0 <= i < |t'.records| && IsLast(t'.records, i)
      ensures t'.records[i].latest
    {
      if i < n {
        assert t'.records[i].question != q by {
          assert t'.records[n].question == q;
        }
        assert IsLast(t.records, i) by {
          forall j | i < j < n
            ensures t.records[j].question != t.records[i].question
          {
            assert t'.records[j].question == t.records[j].question;
          }
        }
      }
    }
  }

  /** After a successful put, `get_answer` returns the value just written, or nothing for a tombstone. */
  lemma {:induction false} PutThenGet(t: Table, q: string, a: string, editor: int, time: int, tag: string, delete: bool)
    ensures GetAnswer(Put(t, q, a, editor, time, tag, delete, Healthy).0, q) == if delete then (false, "") else (true, a)
  {
    var t' := Put(t, q, a, editor, time, tag, delete, Healthy).0;
    var n := |t.records|;
    assert forall i :: 0 <= i < |t'.records| && Active(t'.records[i], q) ==> i == n;
    if !delete {
      assert Active(t'.records[n], q);
    }
  }

  /** `get_answer` only looks at the rows of its own question. */
  lemma {:induction false} GetAnswerSeesOwnRows(rs: seq<Record>, q: string)
    ensures FirstActive(rs, q) == FirstActive(RowsOf(rs, q), q)
  {
    if |rs| > 0 {
      GetAnswerSeesOwnRows(rs[1..], q);
    }
  }

  /** Rows of a concatenation are the concatenation of rows. */
  lemma {:induction false} RowsOfAppend(xs: seq<Record>, ys: seq<Record>, q: string)
    ensures RowsOf(xs + ys, q) == RowsOf(xs, q) + RowsOf(ys, q)
  {
    if |xs| > 0 {
      assert (xs + ys)[1..] == xs[1..] + ys;
      RowsOfAppend(xs[1..], ys, q);
    } else {
      assert xs + ys == ys;
    }
  }

  /** Rewriting only rows of `q`, and never their question, leaves the rows of every other question as they were. */
  lemma {:induction false} SameOtherRows(xs: seq<Record>, ys: seq<Record>, q: string, q': string)
    requires q' != q
    requires |xs| == |ys|
    requires forall i :: 0 <= i < |xs| ==> ys[i].question == xs[i].question
    requires forall i :: 0 <= i < |xs| && xs[i].question != q ==> ys[i] == xs[i]
    ensures RowsOf(ys, q') == RowsOf(xs, q')
  {
    if |xs| > 0 {
      SameOtherRows(xs[1..], ys[1..], q, q');
    }
  }

  /** A put of `q` leaves the rows of every other question, and so their answers, unchanged. */
  lemma PutKeepsOtherQuestions(t: Table, q: string, a: string, editor: int, time: int, tag: string, delete: bool, fault: Fault, q': string)
    requires q' != q
    ensures RowsOf(Put(t, q, a, editor, time, tag, delete, fault).0.records, q') == RowsOf(t.records, q')
    ensures GetAnswer(Put(t, q, a, editor, time, tag, delete, fault).0, q') == GetAnswer(t, q')
  {
    var t' := Put(t, q, a, editor, time, tag, delete, fault).0;
    match fault {
      case FailFirst =>
      case FailSecond =>
        SameOtherRows(t.records, Demote(t.records, q), q, q');
      case Healthy =>
        var row := Record(t.nextSeq, q, a, true, delete, tag, editor, time);
        assert t'.records == Demote(t.records, q) + [row];
        RowsOfAppend(Demote(t.records, q), [row], q');
        SameOtherRows(t.records, Demote(t.records, q), q, q');
    }
    GetAnswerSeesOwnRows(t.records, q');
    GetAnswerSeesOwnRows(t'.records, q');
  }

  // ---------------------------------------------------------------- rollback

  /** The rows without row `k`. */
  function Without(rs: seq<Record>, k: nat): (r: seq<Record>)
    requires k < |rs|
    ensures |r| == |rs| - 1
    ensures forall i :: 0 <= i < |r| ==> r[i] == if i < k then rs[i] else rs[i + 1]
  {
    rs[..k] + rs[k + 1..]
  }

  /** The rows with the newest row of `q` (if any) marked latest. */
  function Relatch(rs: seq<Record>, q: string): seq<Record> {
    seq(|rs|, i requires 0 <= i < |rs| =>
      if rs[i].question == q && IsLast(rs, i) then rs[i].(latest := true) else rs[i])
  }

  /** Deleting a key that no row has changes nothing. */
  lemma {:induction false} RemoveSeqAbsent(rs: seq<Record>, s: nat)
    requires forall i :: 0 <= i < |rs| ==> rs[i].faqSeq != s
    ensures RemoveSeq(rs, s) == rs
  {
    if |rs| > 0 {
      RemoveSeqAbsent(rs[1..], s);
    }
  }

  /** In key order, deleting the first row's key removes exactly the first row. */
  lemma RemoveSeqAtHead(rs: seq<Record>)
    requires Ordered(rs) && 0 < |rs|
    ensures RemoveSeq(rs, rs[0].faqSeq) == rs[1..]
  {
    var tail := rs[1..];
    assert forall i :: 0 <= i < |tail| ==> tail[i].faqSeq != rs[0].faqSeq by {
      forall i | 0 <= i < |tail| ensures tail[i].faqSeq != rs[0].faqSeq {
        assert tail[i] == rs[i + 1];
      }
    }
    RemoveSeqAbsent(tail, rs[0].faqSeq);
  }

  /** The rows without row `k > 0` are the first row followed by the rest without its row `k - 1`. */
  lemma WithoutCons(rs: seq<Record>, k: nat)
    requires 0 < k < |rs|
    ensures Without(rs, k) == [rs[0]] + Without(rs[1..], k - 1)
  {
    var tail := rs[1..];
    assert tail[..k - 1] == rs[1..k];
    assert tail[k..] == rs[k + 1..];
    assert rs[..k] == [rs[0]] + rs[1..k];
  }

  /** In key order, deleting row `k`'s key removes exactly row `k`. */
  lemma {:induction false} RemoveSeqAt(rs: seq<Record>, k: nat)
    requires Ordered(rs) && k < |rs|
    ensures RemoveSeq(rs, rs[k].faqSeq) == Without(rs, k)
  {
    if k == 0 {
      RemoveSeqAtHead(rs);
    } else {
      var tail := rs[1..];
      assert tail[k - 1] == rs[k];
      assert rs[0].faqSeq != rs[k].faqSeq;
      assert Ordered(tail) by {
        forall i, j | 0 <= i < j < |tail| ensures tail[i].faqSeq < tail[j].faqSeq {
          assert tail[i] == rs[i + 1] && tail[j] == rs[j + 1];
        }
      }
      RemoveSeqAt(tail, k - 1);
      WithoutCons(rs, k);
    }
  }

  /** In key order, the maximum key of `q` is that of its last row. */
  lemma MaxSeqOfLast(rs: seq<Record>, q: string, k: nat)
    requires Ordered(rs) && k < |rs| && rs[k].question == q && IsLast(rs, k)
    ensures MaxSeq(rs, q) == Some(rs[k].faqSeq)
  {
    var v := MaxSeq(rs, q).value;
    var i :| 0 <= i < |rs| && rs[i].question == q && rs[i].faqSeq == v;
    assert i <= k;
  }

  /** In key order, marking row `k`'s key latest marks exactly row `k`. */
  lemma MarkLatestAt(rs: seq<Record>, k: nat)
    requires Ordered(rs) && k < |rs|
    ensures MarkLatest(rs, rs[k].faqSeq) == rs[k := rs[k].(latest := true)]
  {
  }

  /** Removing a row keeps the table well formed. */
  lemma WithoutWellFormed(t: Table, k: nat)
    requires WellFormed(t) && k < |t.records|
    ensures WellFormed(Table(Without(t.records, k), t.nextSeq))
  {
    var rs := t.records;
    var rest := Without(rs, k);
    forall i | 0 <= i < |rest| && rest[i].latest
      ensures IsLast(rest, i)
    {
      var x := if i < k then i else i + 1;
      assert IsLast(rs, x);
      forall j | i < j < |rest|
        ensures rest[j].question != rest[i].question
      {
        var y := if j < k then j else j + 1;
        assert rest[j] == rs[y];
      }
    }
  }

  /** Marking the newest row of `q` latest keeps the table well formed. */
  lemma RelatchWellFormed(t: Table, q: string)
    requires WellFormed(t)
    ensures WellFormed(Table(Relatch(t.records, q), t.nextSeq))
  {
    var rs := t.records;
    var rs' := Relatch(rs, q);
    forall i | 0 <= i < |rs'| && rs'[i].latest
      ensures IsLast(rs', i)
    {
      assert IsLast(rs, i);
    }
  }

  /** Removing a row keeps the keys in order. */
  lemma WithoutOrdered(rs: seq<Record>, k: nat)
    requires Ordered(rs) && k < |rs|
    ensures Ordered(Without(rs, k))
  {
    var rest := Without(rs, k);
    forall i, j | 0 <= i < j < |rest|
      ensures rest[i].faqSeq < rest[j].faqSeq
    {
      var x := if i < k then i else i + 1;
      var y := if j < k then j else j + 1;
      assert rest[i] == rs[x] && rest[j] == rs[y];
    }
  }

  /** With no row of `q`, relatching changes nothing. */
  lemma RelatchNoRows(rs: seq<Record>, q: string)
    requires forall i :: 0 <= i < |rs| ==> rs[i].question != q
    ensures Relatch(rs, q) == rs
  {
  }

  /** In key order, relatching `q` marks the row holding the maximum key of `q`. */
  lemma RelatchIsMarkLatest(rs: seq<Record>, q: string, m: nat)
    requires Ordered(rs) && m < |rs| && rs[m].question == q && IsLast(rs, m)
    ensures Relatch(rs, q) == MarkLatest(rs, rs[m].faqSeq)
  {
    MarkLatestAt(rs, m);
    forall i | 0 <= i < |rs|
      ensures Relatch(rs, q)[i] == rs[m := rs[m].(latest := true)][i]
    {
    }
  }

  /** Unfolds a successful rollback of a question that has rows. */
  lemma RollbackHealthyUnfold(t: Table, q: string, top: nat)
    requires MaxSeq(t.records, q) == Some(top)
    ensures Rollback(t, q, Healthy).1
    ensures Rollback(t, q, Healthy).0 == Table(
      match MaxSeq(RemoveSeq(t.records, top), q)
      case None => RemoveSeq(t.records, top)
      case Some(m) => MarkLatest(RemoveSeq(t.records, top), m),
      t.nextSeq)
  {
  }

  /** In a well-formed table rollback's two queries locate exactly the newest row of `q`. */
  lemma RollbackLocatesNewest(t: Table, q: string, k: nat)
    requires WellFormed(t)
    requires k < |t.records| && t.records[k].question == q && IsLast(t.records, k)
    ensures MaxSeq(t.records, q) == Some(t.records[k].faqSeq)
    ensures RemoveSeq(t.records, t.records[k].faqSeq) == Without(t.records, k)
  {
    MaxSeqOfLast(t.records, q, k);
    RemoveSeqAt(t.records, k);
  }

  /**
   A successful rollback of `q` removes exactly the newest row of `q` and marks
   the new newest row of `q`, if there is one, latest.
   */
  lemma RollbackRemovesNewest(t: Table, q: string, k: nat)
    requires WellFormed(t)
    requires k < |t.records| && t.records[k].question == q && IsLast(t.records, k)
    ensures Rollback(t, q, Healthy) == (Table(Relatch(Without(t.records, k), q), t.nextSeq), true)
  {
    var rs := t.records;
    var rest := Without(rs, k);
    RollbackLocatesNewest(t, q, k);
    WithoutOrdered(rs, k);
    RollbackHealthyUnfold(t, q, rs[k].faqSeq);
    match LastIndex(rest, q) {
      case None =>
        RelatchNoRows(rest, q);
        assert MaxSeq(rest, q) == None;
      case Some(m) =>
        MaxSeqOfLast(rest, q, m);
        RelatchIsMarkLatest(rest, q, m);
    }
  }

  /** A rollback whose second statement fails has still removed the newest row of `q`. */
  lemma FailedRollbackRemovesNewest(t: Table, q: string, k: nat)
    requires WellFormed(t)
    requires k < |t.records| && t.records[k].question == q && IsLast(t.records, k)
    ensures Rollback(t, q, FailSecond) == (Table(Without(t.records, k), t.nextSeq), false)
  {
    RollbackLocatesNewest(t, q, k);
  }

  /** Every rollback keeps the table well formed, whether or not its statements fail. */
  lemma RollbackPreservesWellFormed(t: Table, q: string, fault: Fault)
    requires WellFormed(t)
    ensures WellFormed(Rollback(t, q, fault).0)
  {
    match LastIndex(t.records, q) {
      case None =>
      case Some(k) =>
        RollbackRemovesNewest(t, q, k);
        FailedRollbackRemovesNewest(t, q, k);
        WithoutWellFormed(t, k);
        RelatchWellFormed(Table(Without(t.records, k), t.nextSeq), q);
    }
  }

  /** A last row that survives the removal of a row of another question was last before it. */
  lemma LastSurvivesWithout(rs: seq<Record>, k: nat, i: nat)
    requires k < |rs| && i < |rs| - 1
    requires IsLast(Without(rs, k), i)
    requires Without(rs, k)[i].question != rs[k].question
    ensures var x := if i < k then i else i + 1;
      rs[x] == Without(rs, k)[i] && IsLast(rs, x)
  {
    var rest := Without(rs, k);
    var x := if i < k then i else i + 1;
    forall y | x < y < |rs|
      ensures rs[y].question != rs[x].question
    {
      if y != k {
        var j := if y < k then y else y - 1;
        assert rest[j] == rs[y];
      }
    }
  }

  /** Removing the newest row of `q` and relatching `q` keeps a complete table complete. */
  lemma RelatchWithoutComplete(t: Table, q: string, k: nat)
    requires WellFormed(t) && Complete(t)
    requires k < |t.records| && t.records[k].question == q && IsLast(t.records, k)
    ensures Complete(Table(Relatch(Without(t.records, k), q), t.nextSeq))
  {
    var rs := t.records;
    var rest := Without(rs, k);
    var rs' := Relatch(rest, q);
    assert forall j :: 0 <= j < |rest| ==> rs'[j].question == rest[j].question;
    forall i | 0 <= i < |rs'| && IsLast(rs', i)
      ensures rs'[i].latest
    {
      assert IsLast(rest, i);
      if rest[i].question != q {
        LastSurvivesWithout(rs, k, i);
      }
    }
  }

  /** A successful rollback keeps a complete table complete. */
  lemma RollbackPreservesComplete(t: Table, q: string)
    requires WellFormed(t) && Complete(t)
    ensures Complete(Rollback(t, q, Healthy).0)
  {
    match LastIndex(t.records, q) {
      case None =>
      case Some(k) =>
        RollbackRemovesNewest(t, q, k);
        RelatchWithoutComplete(t, q, k);
    }
  }

  /** In a well-formed, complete table, demoting `q` and relatching it gives the rows back. */
  lemma RelatchUndoesDemote(t: Table, q: string)
    requires WellFormed(t) && Complete(t)
    ensures Relatch(Demote(t.records, q), q) == t.records
  {
    var rs := t.records;
    var d := Demote(rs, q);
    assert |d| == |rs|;
    assert forall j :: 0 <= j < |rs| ==> d[j].question == rs[j].question;
    forall i | 0 <= i < |rs|
      ensures Relatch(d, q)[i] == rs[i]
    {
      if rs[i].question == q {
        if IsLast(rs, i) {
          assert IsLast(d, i);
          assert rs[i].latest;
        } else {
          var j :| i < j < |rs| && rs[j].question == rs[i].question;
          assert d[j].question == d[i].question;
          assert !rs[i].latest;
        }
      }
    }
  }

  /** A successful put is the demotion followed by one appended row. */
  lemma PutHealthyUnfold(t: Table, q: string, a: string, editor: int, time: int, tag: string, delete: bool)
    ensures Put(t, q, a, editor, time, tag, delete, Healthy).0 ==
      Table(Demote(t.records, q) + [Record(t.nextSeq, q, a, true, delete, tag, editor, time)], t.nextSeq + 1)
  {
  }

  /** On a well-formed, complete table a successful rollback undoes a successful put exactly. */
  lemma RollbackUndoesPut(t: Table, q: string, a: string, editor: int, time: int, tag: string, delete: bool)
    requires WellFormed(t) && Complete(t)
    ensures Rollback(Put(t, q, a, editor, time, tag, delete, Healthy).0, q, Healthy) == (Table(t.records, t.nextSeq + 1), true)
  {
    var n := |t.records|;
    var d := Demote(t.records, q);
    var row := Record(t.nextSeq, q, a, true, delete, tag, editor, time);
    var t' := Table(d + [row], t.nextSeq + 1);
    PutHealthyUnfold(t, q, a, editor, time, tag, delete);
    PutPreservesWellFormed(t, q, a, editor, time, tag, delete, Healthy);
    assert WellFormed(t');
    assert IsLast(t'.records, n);
    RollbackRemovesNewest(t', q, n);
    assert Without(t'.records, n) == d;
    RelatchUndoesDemote(t, q);
  }

  /** Removing a row of another question leaves the rows of `q'` as they were. */
  lemma RowsOfWithout(rs: seq<Record>, k: nat, q': string)
    requires k < |rs| && rs[k].question != q'
    ensures RowsOf(Without(rs, k), q') == RowsOf(rs, q')
  {
    var a, b := rs[..k], rs[k + 1..];
    assert rs == a + ([rs[k]] + b);
    RowsOfAppend(a, [rs[k]] + b, q');
    assert RowsOf([rs[k]] + b, q') == RowsOf(b, q');
    RowsOfAppend(a, b, q');
    assert Without(rs, k) == a + b;
  }

  /** Removing a row of `q` and relatching `q` leaves the rows of every other question as they were. */
  lemma RelatchWithoutKeepsOthers(rs: seq<Record>, q: string, k: nat, q': string)
    requires k < |rs| && rs[k].question == q && q' != q
    ensures RowsOf(Without(rs, k), q') == RowsOf(rs, q')
    ensures RowsOf(Relatch(Without(rs, k), q), q') == RowsOf(rs, q')
  {
    var rest := Without(rs, k);
    RowsOfWithout(rs, k, q');
    SameOtherRows(rest, Relatch(rest, q), q, q');
  }

  /** Rows of other questions survive a rollback of `q`, whatever its outcome. */
  lemma RollbackKeepsOtherQuestions(t: Table, q: string, fault: Fault, q': string)
    requires WellFormed(t) && q' != q
    ensures RowsOf(Rollback(t, q, fault).0.records, q') == RowsOf(t.records, q')
    ensures GetAnswer(Rollback(t, q, fault).0, q') == GetAnswer(t, q')
  {
    var rs := t.records;
    var rs' := Rollback(t, q, fault).0.records;
    match LastIndex(rs, q) {
      case None =>
        assert rs' == rs;
      case Some(k) =>
        RelatchWithoutKeepsOthers(rs, q, k, q');
        if fault.Healthy? {
          RollbackRemovesNewest(t, q, k);
          assert rs' == Relatch(Without(rs, k), q);
        } else if fault.FailSecond? {
          FailedRollbackRemovesNewest(t, q, k);
          assert rs' == Without(rs, k);
        } else {
          assert rs' == rs;
        }
    }
    GetAnswerSeesOwnRows(rs, q');
    GetAnswerSeesOwnRows(rs', q');
  }

  /**
   A soft delete hides the answer while keeping its history, and a rollback
   after it brings the deleted answer back.
   */
  lemma RollbackResurrectsSoftDelete(t: Table, q: string, a: string, editor: int, time: int)
    requires WellFormed(t) && Complete(t)
    requires GetAnswer(t, q) == (true, a)
    ensures GetAnswer(Put(t, q, "", editor, time, "", true, Healthy).0, q) == (false, "")
    ensures |Put(t, q, "", editor, time, "", true, Healthy).0.records| == |t.records| + 1
    ensures GetAnswer(Rollback(Put(t, q, "", editor, time, "", true, Healthy).0, q, Healthy).0, q) == (true, a)
  {
    PutThenGet(t, q, "", editor, time, "", true);
    RollbackUndoesPut(t, q, "", editor, time, "", true);
  }

  // ---------------------------------------------------------------- history

  /** The elements in reverse order. */
  function Reverse<T>(xs: seq<T>): (r: seq<T>)
    ensures |r| == |xs|
    ensures forall i :: 0 <= i < |xs| ==> r[i] == xs[|xs| - 1 - i]
  {
    if |xs| == 0 then [] else Reverse(xs[1..]) + [xs[0]]
  }

  /** A row older than every row of a list goes behind all of them. */
  lemma {:induction false} InsertBehindAll(x: Record, ys: seq<Record>)
    requires forall i :: 0 <= i < |ys| ==> x.faqSeq < ys[i].faqSeq
    ensures Sorting.Insert(x, ys, NewerFirst) == ys + [x]
  {
    if |ys| > 0 {
      InsertBehindAll(x, ys[1..]);
      assert ys == [ys[0]] + ys[1..];
    }
  }

  /** Sorting rows that are in key order newest-first reverses them. */
  lemma {:induction false} SortNewerFirstReverses(rows: seq<Record>)
    requires Ordered(rows)
    ensures Sorting.SortBy(rows, NewerFirst) == Reverse(rows)
  {
    if |rows| > 0 {
      SortNewerFirstReverses(rows[1..]);
      InsertBehindAll(rows[0], Reverse(rows[1..]));
    }
  }

  /** In a table in key order the history is the rows of `q` from the newest back, at most `HistoryLimit` of them. */
  lemma HistoryIsNewestRows(t: Table, q: string)
    requires Ordered(t.records)
    ensures var rows := RowsOf(t.records, q);
      History(t, q) == Reverse(rows)[..if |rows| < HistoryLimit then |rows| else HistoryLimit]
  {
    SortNewerFirstReverses(RowsOf(t.records, q));
  }

  /** Demoting `q` clears the latest flag of every row of `q` and keeps them in place. */
  lemma {:induction false} RowsOfDemote(rs: seq<Record>, q: string)
    ensures |RowsOf(Demote(rs, q), q)| == |RowsOf(rs, q)|
    ensures forall i :: 0 <= i < |RowsOf(rs, q)| ==>
      RowsOf(Demote(rs, q), q)[i] == RowsOf(rs, q)[i].(latest := false)
  {
    if |rs| > 0 {
      var d := Demote(rs, q);
      assert d[1..] == Demote(rs[1..], q);
      RowsOfDemote(rs[1..], q);
      var tail, dtail := RowsOf(rs[1..], q), RowsOf(d[1..], q);
      if rs[0].question == q {
        assert RowsOf(rs, q) == [rs[0]] + tail;
        assert RowsOf(d, q) == [d[0]] + dtail;
        assert d[0] == rs[0].(latest := false);
      } else {
        assert RowsOf(rs, q) == tail;
        assert RowsOf(d, q) == dtail;
      }
    }
  }

  /** The rows of `q` after a successful put: the demoted old rows, then the new row. */
  lemma RowsOfAfterPut(t: Table, q: string, a: string, editor: int, time: int, tag: string, delete: bool)
    ensures RowsOf(Put(t, q, a, editor, time, tag, delete, Healthy).0.records, q) ==
      RowsOf(Demote(t.records, q), q) + [Record(t.nextSeq, q, a, true, delete, tag, editor, time)]
  {
    var row := Record(t.nextSeq, q, a, true, delete, tag, editor, time);
    PutHealthyUnfold(t, q, a, editor, time, tag, delete);
    RowsOfAppend(Demote(t.records, q), [row], q);
    assert RowsOf([row], q) == [row];
  }

  /** The newest-first window over rows with one row appended, against the window over the demoted rows. */
  lemma NewestWindowAfterAppend(old_: seq<Record>, dem: seq<Record>, row: Record)
    requires |dem| == |old_|
    requires forall i :: 0 <= i < |old_| ==> dem[i] == old_[i].(latest := false)
    ensures var rows := dem + [row];
      var h := Reverse(rows)[..if |rows| < HistoryLimit then |rows| else HistoryLimit];
      var h0 := Reverse(old_)[..if |old_| < HistoryLimit then |old_| else HistoryLimit];
      && |h| > 0 && h[0] == row
      && forall i :: 1 <= i < |h| ==> i - 1 < |h0| && h[i] == h0[i - 1].(latest := false)
  {
    var rows := dem + [row];
    var m := |old_|;
    var h := Reverse(rows)[..if |rows| < HistoryLimit then |rows| else HistoryLimit];
    forall i | 1 <= i < |h|
      ensures h[i] == dem[m - i]
    {
      assert rows[m - i] == dem[m - i];
    }
  }

  /**
   After a successful put the history starts with the new row, followed by
   the previous history with every entry demoted.
   */
  lemma HistoryAfterPut(t: Table, q: string, a: string, editor: int, time: int, tag: string, delete: bool)
    requires WellFormed(t)
    ensures var h := History(Put(t, q, a, editor, time, tag, delete, Healthy).0, q);
      && |h| > 0
      && h[0] == Record(t.nextSeq, q, a, true, delete, tag, editor, time)
      && forall i :: 1 <= i < |h| ==> i - 1 < |History(t, q)| && h[i] == History(t, q)[i - 1].(latest := false)
  {
    var row := Record(t.nextSeq, q, a, true, delete, tag, editor, time);
    var t' := Put(t, q, a, editor, time, tag, delete, Healthy).0;
    PutPreservesWellFormed(t, q, a, editor, time, tag, delete, Healthy);
    RowsOfAfterPut(t, q, a, editor, time, tag, delete);
    RowsOfDemote(t.records, q);
    HistoryIsNewestRows(t, q);
    HistoryIsNewestRows(t', q);
    NewestWindowAfterAppend(RowsOf(t.records, q), RowsOf(Demote(t.records, q), q), row);
  }

  // ---------------------------------------------------------------- listing

  /** Every latest row is its question's newest row. */
  predicate LatestAreLast(rs: seq<Record>) {
    forall i :: 0 <= i < |rs| && rs[i].latest ==> IsLast(rs, i)
  }

  /** When latest rows are newest rows, no two active rows share a question. */
  lemma {:induction false} ActiveRowsDistinct(rs: seq<Record>)
    requires LatestAreLast(rs)
    ensures forall i, j :: 0 <= i < j < |ActiveRows(rs)| ==> ActiveRows(rs)[i].question != ActiveRows(rs)[j].question
  {
    if |rs| > 0 {
      assert LatestAreLast(rs[1..]) by {
        forall i | 0 <= i < |rs[1..]| && rs[1..][i].latest
          ensures IsLast(rs[1..], i)
        {
          assert IsLast(rs, i + 1);
        }
      }
      ActiveRowsDistinct(rs[1..]);
      if rs[0].latest && !rs[0].deleted {
        var tail := ActiveRows(rs[1..]);
        forall j | 0 <= j < |tail|
          ensures tail[j].question != rs[0].question
        {
          assert tail[j] in rs[1..];
          var y :| 0 <= y < |rs[1..]| && rs[1..][y] == tail[j];
          assert rs[y + 1] == tail[j];
          assert IsLast(rs, 0);
        }
      }
    }
  }

  /** A question is listed exactly when `get_answer` finds it. */
  lemma ListedIffAnswered(t: Table, q: string)
    ensures q in ActiveQuestions(t) <==> GetAnswer(t, q).0
  {
    var rows := ActiveRows(t.records);
    var qs := ActiveQuestions(t);
    if q in qs {
      var i :| 0 <= i < |qs| && qs[i] == q;
      assert rows[i] in rows;
      var j :| 0 <= j < |t.records| && t.records[j] == rows[i];
      assert Active(t.records[j], q);
    }
    if GetAnswer(t, q).0 {
      var i :| 0 <= i < |t.records| && Active(t.records[i], q);
      assert t.records[i] in t.records;
      var j :| 0 <= j < |rows| && rows[j] == t.records[i];
      assert qs[j] == q;
    }
  }

  /**
   In a well-formed table the listed questions are exactly those `get_answer`
   finds, each listed once.
   */
  lemma ActiveQuestionsMatchGet(t: Table)
    requires WellFormed(t)
    ensures forall q :: q in ActiveQuestions(t) <==> GetAnswer(t, q).0
    ensures forall i, j :: 0 <= i < j < |ActiveQuestions(t)| ==> ActiveQuestions(t)[i] != ActiveQuestions(t)[j]
  {
    ActiveRowsDistinct(t.records);
    forall q
      ensures q in ActiveQuestions(t) <==> GetAnswer(t, q).0
    {
      ListedIffAnswered(t, q);
    }
  }

  /** The active rows keep table order: filtering distributes over concatenation. */
  lemma {:induction false} ActiveRowsAppend(xs: seq<Record>, ys: seq<Record>)
    ensures ActiveRows(xs + ys) == ActiveRows(xs) + ActiveRows(ys)
  {
    if |xs| == 0 {
      assert xs + ys == ys;
    } else {
      assert (xs + ys)[1..] == xs[1..] + ys;
      ActiveRowsAppend(xs[1..], ys);
    }
  }

  /**
   The tag listing maps the table in order: two consecutive stretches of rows
   list as their two listings one after the other, and a single row
   contributes its `(group_tag, question)` pair exactly when it is latest and
   undeleted.
   */
  lemma ActiveTaggedInTableOrder(xs: seq<Record>, ys: seq<Record>, n: nat, x: Record)
    ensures ActiveTagged(Table(xs + ys, n)) == ActiveTagged(Table(xs, n)) + ActiveTagged(Table(ys, n))
    ensures ActiveTagged(Table([x], n)) == if x.latest && !x.deleted then [(x.groupTag, x.question)] else []
  {
    ActiveRowsAppend(xs, ys);
    assert [x][1..] == [];
  }

  /** The question listing of two stretches of rows is their listings one after the other. */
  lemma ActiveQuestionsAppend(xs: seq<Record>, ys: seq<Record>, n: nat)
    ensures ActiveQuestions(Table(xs + ys, n)) == ActiveQuestions(Table(xs, n)) + ActiveQuestions(Table(ys, n))
  {
    ActiveRowsAppend(xs, ys);
    var a, b := ActiveQuestions(Table(xs, n)), ActiveQuestions(Table(ys, n));
    var c := ActiveQuestions(Table(xs + ys, n));
    forall i | 0 <= i < |c|
      ensures c[i] == (a + b)[i]
    {
      if i >= |a| {
        assert ActiveRows(xs + ys)[i] == ActiveRows(ys)[i - |a|];
      }
    }
  }

  /** The question listing maps the table in order, one question per latest undeleted row. */
  lemma ActiveQuestionsInTableOrder(xs: seq<Record>, ys: seq<Record>, n: nat, x: Record)
    ensures ActiveQuestions(Table(xs + ys, n)) == ActiveQuestions(Table(xs, n)) + ActiveQuestions(Table(ys, n))
    ensures ActiveQuestions(Table([x], n)) == if x.latest && !x.deleted then [x.question] else []
  {
    ActiveQuestionsAppend(xs, ys, n);
    assert [x][1..] == [];
  }
}
