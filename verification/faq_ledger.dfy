/**
 A group's FAQ table: an append-only list of answer versions, with the three
 primitives that change or read it (`update_answer`, `get_answer`,
 `rollback_answer`), the history query, and the active-row queries behind
 `faq show`.
 */
module FaqLedger {
  import opened Wrappers
  import Sorting

  /** One row: `faq_seq`, `question`, `answer`, `latest`, `deleted`, `group_tag`, `modify_user_id`, `modify_time`. */
  datatype Record = Record(
    faqSeq: nat,
    question: string,
    answer: string,
    latest: bool,
    deleted: bool,
    groupTag: string,
    modifyUserId: int,
    modifyTime: int)

  /** A group's table: its rows in primary-key order and the next auto-increment value. */
  datatype Table = Table(records: seq<Record>, nextSeq: nat)

  /** A table as created: no rows, auto-increment starting at 1. */
  const EmptyTable := Table([], 1)

  /** The history query's `limit 20`. */
  const HistoryLimit := 20

  /**
   How the autocommitted statements of one store operation fare: all succeed,
   the first fails (nothing is written), or the second fails after the first
   has committed.
   */
  datatype Fault = Healthy | FailFirst | FailSecond

  /** All groups' tables, keyed by group id. */
  type Store = map<int, Table>

  /** The table of a group; a group that has none yet reads as an empty table. */
  function TableOf(s: Store, g: int): Table {
    if g in s then s[g] else EmptyTable
  }

  /** The row is the current, undeleted answer to `q`. */
  predicate Active(r: Record, q: string) {
    r.question == q && r.latest && !r.deleted
  }

  /** No later row has the same question: row `i` has its question's highest `faq_seq`. */
  predicate IsLast(rs: seq<Record>, i: int)
    requires 0 <= i < |rs|
  {
    forall j :: i < j < |rs| ==> rs[j].question != rs[i].question
  }

  /** Rows are in strictly increasing `faq_seq` order (the primary key). */
  predicate Ordered(rs: seq<Record>) {
    forall i, j :: 0 <= i < j < |rs| ==> rs[i].faqSeq < rs[j].faqSeq
  }

  /**
   The table invariant: keys increase, the counter is above every key, and a
   latest row is its question's highest-sequence row, so each question has at
   most one latest row.
   */
  predicate WellFormed(t: Table) {
    && Ordered(t.records)
    && (forall i :: 0 <= i < |t.records| ==> t.records[i].faqSeq < t.nextSeq)
    && (forall i :: 0 <= i < |t.records| && t.records[i].latest ==> IsLast(t.records, i))
  }

  /** Every question that has rows has its highest-sequence row marked latest. */
  predicate Complete(t: Table) {
    forall i :: 0 <= i < |t.records| && IsLast(t.records, i) ==> t.records[i].latest
  }

  /** Every table of the store is well formed. */
  predicate StoreWellFormed(s: Store) {
    forall g :: g in s ==> WellFormed(s[g])
  }

  /** Every table of the store is complete. */
  predicate StoreComplete(s: Store) {
    forall g :: g in s ==> Complete(s[g])
  }

  // ---------------------------------------------------------------- put

  /** `update … set latest = false where question = q and latest = true`. */
  function Demote(rs: seq<Record>, q: string): seq<Record> {
    seq(|rs|, i requires 0 <= i < |rs| =>
      if rs[i].question == q && rs[i].latest then rs[i].(latest := false) else rs[i])
  }

  /**
   `update_answer`: demote every latest row of `q`, then insert a new latest
   row with the next key. The two statements commit separately.
   */
  function Put(t: Table, q: string, a: string, editor: int, time: int, tag: string, delete: bool, fault: Fault): (r: (Table, bool))
    ensures r.1 <==> fault.Healthy?
    ensures fault.FailFirst? ==> r.0 == t
    ensures !fault.FailFirst? ==>
      && |r.0.records| >= |t.records|
      && forall i :: 0 <= i < |t.records| ==>
        && r.0.records[i].(latest := t.records[i].latest) == t.records[i]
        && (r.0.records[i].latest <==> t.records[i].latest && t.records[i].question != q)
    ensures fault.FailSecond? ==> |r.0.records| == |t.records| && r.0.nextSeq == t.nextSeq
    ensures fault.Healthy? ==>
      && |r.0.records| == |t.records| + 1
      && r.0.nextSeq > t.nextSeq
      && var n := r.0.records[|t.records|];
      && n.question == q && n.answer == a && n.latest && n.deleted == delete
      && n.groupTag == tag && n.modifyUserId == editor && n.modifyTime == time
      && n.faqSeq == t.nextSeq
    ensures fault.Healthy? ==>
      forall i :: 0 <= i < |r.0.records| && r.0.records[i].question == q ==>
        (r.0.records[i].latest <==> i == |t.records|)
  {
    match fault
    case FailFirst => (t, false)
    case FailSecond => (Table(Demote(t.records, q), t.nextSeq), false)
    case Healthy =>
      var row := Record(t.nextSeq, q, a, true, delete, tag, editor, time);
      (Table(Demote(t.records, q) + [row], t.nextSeq + 1), true)
  }

  // ---------------------------------------------------------------- get

  /** The answer of the first active row of `q`, scanning in key order. */
  function FirstActive(rs: seq<Record>, q: string): (r: (bool, string))
    ensures r.0 <==> exists i :: 0 <= i < |rs| && Active(rs[i], q)
    ensures r.0 ==> exists i :: 0 <= i < |rs| && Active(rs[i], q) && rs[i].answer == r.1
    ensures !r.0 ==> r.1 == ""
  {
    if |rs| == 0 then (false, "")
    else if Active(rs[0], q) then (true, rs[0].answer)
    else
      var r := FirstActive(rs[1..], q);
      assert forall i :: 1 <= i < |rs| ==> rs[i] == rs[1..][i - 1];
      r
  }

  /** `get_answer`: `(True, answer)` of the latest undeleted row of `q`, else `(False, '')`. */
  function GetAnswer(t: Table, q: string): (r: (bool, string))
    ensures r.0 <==> exists i :: 0 <= i < |t.records| && Active(t.records[i], q)
    ensures r.0 ==> exists i :: 0 <= i < |t.records| && Active(t.records[i], q) && t.records[i].answer == r.1
    ensures !r.0 ==> r.1 == ""
  {
    FirstActive(t.records, q)
  }

  // ---------------------------------------------------------------- rollback

  /** `select max(faq_seq) … where question = q`; `None` is SQL's NULL. */
  function MaxSeq(rs: seq<Record>, q: string): (r: Option<nat>)
    ensures r.None? <==> forall i :: 0 <= i < |rs| ==> rs[i].question != q
    ensures r.Some? ==> exists i :: 0 <= i < |rs| && rs[i].question == q && rs[i].faqSeq == r.value
    ensures r.Some? ==> forall i :: 0 <= i < |rs| && rs[i].question == q ==> rs[i].faqSeq <= r.value
  {
    if |rs| == 0 then None
    else
      var m := MaxSeq(rs[1..], q);
      assert forall i :: 1 <= i < |rs| ==> rs[i] == rs[1..][i - 1];
      if rs[0].question != q then m
      else match m
        case None => Some(rs[0].faqSeq)
        case Some(v) => Some(if v < rs[0].faqSeq then rs[0].faqSeq else v)
  }

  /** `delete … where faq_seq = s`. */
  function RemoveSeq(rs: seq<Record>, s: nat): (r: seq<Record>)
    ensures |r| <= |rs|
    ensures forall x :: x in r <==> x in rs && x.faqSeq != s
  {
    if |rs| == 0 then []
    else if rs[0].faqSeq == s then RemoveSeq(rs[1..], s)
    else [rs[0]] + RemoveSeq(rs[1..], s)
  }

  /** `update … set latest = true where faq_seq = s`. */
  function MarkLatest(rs: seq<Record>, s: nat): seq<Record> {
    seq(|rs|, i requires 0 <= i < |rs| => if rs[i].faqSeq == s then rs[i].(latest := true) else rs[i])
  }

  /**
   `rollback_answer`: hard-delete the highest-sequence row of `q`, then mark the
   new highest-sequence row of `q` (if any) latest. `False` when `q` has no rows
   or a statement fails.
   */
  function Rollback(t: Table, q: string, fault: Fault): (r: (Table, bool))
    ensures r.0.nextSeq == t.nextSeq
    ensures (forall i :: 0 <= i < |t.records| ==> t.records[i].question != q) ==> r == (t, false)
    ensures r.1 <==> fault.Healthy? && exists i :: 0 <= i < |t.records| && t.records[i].question == q
    ensures fault.FailFirst? ==> r.0 == t
    ensures |r.0.records| <= |t.records|
  {
    match MaxSeq(t.records, q)
    case None => (t, false)
    case Some(top) =>
      if fault.FailFirst? then (t, false)
      else
        var rest := RemoveSeq(t.records, top);
        if fault.FailSecond? then (Table(rest, t.nextSeq), false)
        else match MaxSeq(rest, q)
          case None => (Table(rest, t.nextSeq), true)
          case Some(m) => (Table(MarkLatest(rest, m), t.nextSeq), true)
  }

  // ---------------------------------------------------------------- history

  /** The rows of question `q`, in key order. */
  function RowsOf(rs: seq<Record>, q: string): (r: seq<Record>)
    ensures |r| <= |rs|
    ensures forall x :: x in r <==> x in rs && x.question == q
    ensures Ordered(rs) ==> Ordered(r)
  {
    if |rs| == 0 then []
    else
      var tail := RowsOf(rs[1..], q);
      if rs[0].question != q then tail
      else
        var r := [rs[0]] + tail;
        assert Ordered(rs) ==> Ordered(r) by {
          if Ordered(rs) {
            OrderedTail(rs);
            OrderedCons(rs[0], tail);
          }
        }
        r
  }

  /** In key order, the first row is older than every later one. */
  lemma OrderedTail(rs: seq<Record>)
    requires |rs| > 0 && Ordered(rs)
    ensures Ordered(rs[1..])
    ensures forall x :: x in rs[1..] ==> rs[0].faqSeq < x.faqSeq
  {
    forall x | x in rs[1..]
      ensures rs[0].faqSeq < x.faqSeq
    {
      var k :| 0 <= k < |rs[1..]| && rs[1..][k] == x;
      assert rs[k + 1] == x;
    }
  }

  /** A row older than every row of an ordered sequence can go in front of it. */
  lemma OrderedCons(x: Record, rs: seq<Record>)
    requires Ordered(rs)
    requires forall y :: y in rs ==> x.faqSeq < y.faqSeq
    ensures Ordered([x] + rs)
  {
    var r := [x] + rs;
    forall i, j | 0 <= i < j < |r|
      ensures r[i].faqSeq < r[j].faqSeq
    {
      assert r[j] == rs[j - 1];
      if i > 0 {
        assert r[i] == rs[i - 1];
      } else {
        assert rs[j - 1] in rs;
      }
    }
  }

  /** Newer-first is a total, transitive comparison. */
  lemma NewerFirstIsTotalOrder()
    ensures Sorting.Total(NewerFirst) && Sorting.Transitive(NewerFirst)
  {
  }

  /** `order by faq_seq desc`: a row may precede another when its key is not smaller. */
  function NewerFirst(a: Record, b: Record): bool {
    a.faqSeq >= b.faqSeq
  }

  /**
   The query of `draw_answer_history`: the rows of `q`, newest first, at most
   `HistoryLimit` of them.
   */
  function History(t: Table, q: string): (r: seq<Record>)
    ensures |r| == if |RowsOf(t.records, q)| < HistoryLimit then |RowsOf(t.records, q)| else HistoryLimit
    ensures forall x :: x in r ==> x in t.records && x.question == q
    ensures forall i, j :: 0 <= i < j < |r| ==> r[i].faqSeq >= r[j].faqSeq
  {
    var rows := RowsOf(t.records, q);
    var sorted := Sorting.SortBy(rows, NewerFirst);
    NewerFirstIsTotalOrder();
    var n := if |sorted| < HistoryLimit then |sorted| else HistoryLimit;
    assert |sorted| == |rows|;
    forall x | x in sorted[..n]
      ensures x in t.records && x.question == q
    {
      assert x in multiset(sorted);
      assert x in multiset(rows);
      assert x in rows;
    }
    sorted[..n]
  }

  /** A row of `q` left out of the history is no newer than any row shown. */
  lemma HistoryKeepsNewest(t: Table, q: string, x: Record)
    requires x in t.records && x.question == q && x !in History(t, q)
    ensures forall i :: 0 <= i < |History(t, q)| ==> x.faqSeq <= History(t, q)[i].faqSeq
  {
    var rows := RowsOf(t.records, q);
    var sorted := Sorting.SortBy(rows, NewerFirst);
    NewerFirstIsTotalOrder();
    var n := if |sorted| < HistoryLimit then |sorted| else HistoryLimit;
    assert History(t, q) == sorted[..n];
    assert x in multiset(rows);
    assert x in sorted;
    Sorting.PrefixPrecedesRest(sorted, NewerFirst, n, x);
  }

  // ---------------------------------------------------------------- listing

  /** The rows with `latest = true and deleted = false`, in key order. */
  function ActiveRows(rs: seq<Record>): (r: seq<Record>)
    ensures |r| <= |rs|
    ensures forall x :: x in r <==> x in rs && x.latest && !x.deleted
  {
    if |rs| == 0 then []
    else
      var tail := ActiveRows(rs[1..]);
      if rs[0].latest && !rs[0].deleted then [rs[0]] + tail else tail
  }

  /** `select question … where latest = true and deleted = false`. */
  function ActiveQuestions(t: Table): (r: seq<string>)
    ensures |r| == |ActiveRows(t.records)|
    ensures forall i :: 0 <= i < |r| ==> r[i] == ActiveRows(t.records)[i].question
  {
    var rows := ActiveRows(t.records);
    seq(|rows|, i requires 0 <= i < |rows| => rows[i].question)
  }

  /** `select group_tag, question … where latest = true and deleted = false`. */
  function ActiveTagged(t: Table): (r: seq<(string, string)>)
    ensures |r| == |ActiveRows(t.records)|
    ensures forall i :: 0 <= i < |r| ==> r[i] == (ActiveRows(t.records)[i].groupTag, ActiveRows(t.records)[i].question)
  {
    var rows := ActiveRows(t.records);
    seq(|rows|, i requires 0 <= i < |rows| => (rows[i].groupTag, rows[i].question))
  }
}
