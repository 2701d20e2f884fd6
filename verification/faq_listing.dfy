/**
 The data half of `faq show`: grouping the active questions by tag (`-2`),
 and sorting and bucketing them by the initial of their pinyin (`''`/`-1`).
 The pinyin romanisation is a parameter: `pinyin(c)` stands for the first
 syllable `lazy_pinyin` returns for the one-character string `c`.
 */
module FaqListing {
  import opened Wrappers
  import opened Text
  import Sorting

  // ---------------------------------------------------------------- by tag

  /** The questions of the rows with tag `t`, in row order. */
  function Tagged(rows: seq<(string, string)>, t: string): seq<string> {
    if |rows| == 0 then []
    else
      var last := rows[|rows| - 1];
      Tagged(rows[..|rows| - 1], t) + (if last.0 == t then [last.1] else [])
  }

  /** Every row with tag `u` comes after some row with tag `t`. */
  predicate FirstBefore(rows: seq<(string, string)>, t: string, u: string) {
    forall b :: 0 <= b < |rows| && rows[b].0 == u ==> exists a :: 0 <= a < b && rows[a].0 == t
  }

  /** The distinct tags of the rows, in order of first appearance. */
  function TagsInOrder(rows: seq<(string, string)>): (r: seq<string>)
    ensures forall i, j :: 0 <= i < j < |r| ==> r[i] != r[j]
    ensures forall t :: t in r <==> exists i :: 0 <= i < |rows| && rows[i].0 == t
    ensures forall i, j :: 0 <= i < j < |r| ==> FirstBefore(rows, r[i], r[j])
  {
    if |rows| == 0 then []
    else
      var prefix := rows[..|rows| - 1];
      var p := TagsInOrder(prefix);
      assert forall i :: 0 <= i < |prefix| ==> prefix[i] == rows[i];
      var r := if rows[|rows| - 1].0 in p then p else p + [rows[|rows| - 1].0];
      assert forall i, j :: 0 <= i < j < |r| ==> FirstBefore(rows, r[i], r[j]) by {
        forall i, j | 0 <= i < j < |r|
          ensures FirstBefore(rows, r[i], r[j])
        {
          assert r[i] == p[i] && p[i] in p;
          assert j < |p| ==> r[j] == p[j];
          FirstBeforeSnoc(prefix, rows[|rows| - 1], r[i], r[j]);
        }
      }
      r
  }

  /**
   Appending a row keeps `t` first before `u` when `t` already occurs, and
   `u` either had its occurrences preceded by `t` or did not occur at all.
   */
  lemma FirstBeforeSnoc(prefix: seq<(string, string)>, row: (string, string), t: string, u: string)
    requires exists a :: 0 <= a < |prefix| && prefix[a].0 == t
    requires FirstBefore(prefix, t, u) || forall b :: 0 <= b < |prefix| ==> prefix[b].0 != u
    ensures FirstBefore(prefix + [row], t, u)
  {
    var rows := prefix + [row];
    var a :| 0 <= a < |prefix| && prefix[a].0 == t;
    forall b | 0 <= b < |rows| && rows[b].0 == u
      ensures exists a' :: 0 <= a' < b && rows[a'].0 == t
    {
      if b < |prefix| {
        assert prefix[b].0 == u;
        var a' :| 0 <= a' < b && prefix[a'].0 == t;
        assert rows[a'] == prefix[a'];
      } else {
        assert rows[a] == prefix[a];
      }
    }
  }

  /** The tags of the groups, in order. */
  function Keys(groups: seq<(string, seq<string>)>): (r: seq<string>)
    ensures |r| == |groups|
    ensures forall i :: 0 <= i < |groups| ==> r[i] == groups[i].0
  {
    seq(|groups|, i requires 0 <= i < |groups| => groups[i].0)
  }

  /**
   One step of the loop: `questions[tag].append(q)` when the tag already has a
   group, `questions[tag] = [q]` (a new last group) otherwise.
   */
  function AddRow(groups: seq<(string, seq<string>)>, tag: string, q: string): seq<(string, seq<string>)> {
    if tag in Keys(groups) then
      seq(|groups|, i requires 0 <= i < |groups| => if groups[i].0 == tag then (tag, groups[i].1 + [q]) else groups[i])
    else groups + [(tag, [q])]
  }

  /** Adding a row extends the group of its tag, or opens a new last group. */
  lemma AddRowSpec(groups: seq<(string, seq<string>)>, tag: string, q: string)
    ensures var r := AddRow(groups, tag, q);
      && Keys(r) == (if tag in Keys(groups) then Keys(groups) else Keys(groups) + [tag])
      && (forall i :: 0 <= i < |groups| ==> r[i].1 == (if groups[i].0 == tag then groups[i].1 + [q] else groups[i].1))
      && (tag !in Keys(groups) ==> r[|groups|].1 == [q])
  {
  }

  /** A tag that no row carries tags no question. */
  lemma {:induction false} TaggedAbsent(rows: seq<(string, string)>, t: string)
    requires t !in TagsInOrder(rows)
    ensures Tagged(rows, t) == []
  {
    if |rows| > 0 {
      var prefix := rows[..|rows| - 1];
      assert forall i :: 0 <= i < |prefix| ==> prefix[i] == rows[i];
      TaggedAbsent(prefix, t);
    }
  }

  /** The `faq show -2` loop over `(group_tag, question)` rows. */
  function GroupByTag(rows: seq<(string, string)>): (r: seq<(string, seq<string>)>)
    ensures |rows| == 0 <==> |r| == 0
  {
    if |rows| == 0 then []
    else
      var (tag, q) := rows[|rows| - 1];
      AddRow(GroupByTag(rows[..|rows| - 1]), tag, q)
  }

  /** One more row: the groups of the prefix, extended by `AddRow`, match the references. */
  lemma GroupByTagStep(rows: seq<(string, string)>)
    requires |rows| > 0
    requires var g := GroupByTag(rows[..|rows| - 1]);
      Keys(g) == TagsInOrder(rows[..|rows| - 1])
      && forall i :: 0 <= i < |g| ==> g[i].1 == Tagged(rows[..|rows| - 1], g[i].0)
    ensures var r := GroupByTag(rows);
      Keys(r) == TagsInOrder(rows)
      && forall i :: 0 <= i < |r| ==> r[i].1 == Tagged(rows, r[i].0)
  {
    var prefix := rows[..|rows| - 1];
    var (tag, q) := rows[|rows| - 1];
    var g := GroupByTag(prefix);
    assert forall i :: 0 <= i < |prefix| ==> prefix[i] == rows[i];
    AddRowSpec(g, tag, q);
    var r := AddRow(g, tag, q);
    assert r == GroupByTag(rows);
    if tag !in Keys(g) {
      TaggedAbsent(prefix, tag);
    }
    forall i | 0 <= i < |r|
      ensures r[i].1 == Tagged(rows, r[i].0)
    {
      assert Tagged(rows, r[i].0) == Tagged(prefix, r[i].0) + (if tag == r[i].0 then [q] else []);
      if i < |g| {
        assert r[i].0 == Keys(r)[i] == g[i].0;
      } else {
        assert r[i].0 == Keys(r)[i] == tag;
      }
    }
  }

  /**
   Grouping by tag gives one group per distinct tag, in order of first
   appearance, holding that tag's questions in row order.
   */
  lemma {:induction false} GroupByTagSpec(rows: seq<(string, string)>)
    ensures var r := GroupByTag(rows);
      Keys(r) == TagsInOrder(rows)
      && forall i :: 0 <= i < |r| ==> r[i].1 == Tagged(rows, r[i].0)
  {
    if |rows| > 0 {
      GroupByTagSpec(rows[..|rows| - 1]);
      GroupByTagStep(rows);
    }
  }

  // ---------------------------------------------------------------- by pinyin initial

  /** `lazy_pinyin(q[0])[0].lower()`: the sort key of a question. */
  function SortKey(pinyin: string -> string, q: string): string {
    if |q| == 0 then "" else Lower(pinyin(q[..1]))
  }

  /** The question order used for the listing: by sort key, as strings compare. */
  function PinyinOrder(pinyin: string -> string): (string, string) -> bool {
    (a: string, b: string) => LexLe(SortKey(pinyin, a), SortKey(pinyin, b))
  }

  /** Comparing sort keys is a total, transitive order on questions. */
  lemma PinyinOrderIsTotalOrder(pinyin: string -> string)
    ensures Sorting.Total(PinyinOrder(pinyin)) && Sorting.Transitive(PinyinOrder(pinyin))
  {
    var le := PinyinOrder(pinyin);
    forall a, b
      ensures le(a, b) || le(b, a)
    {
      LexLeTotal(SortKey(pinyin, a), SortKey(pinyin, b));
    }
    forall a, b, c | le(a, b) && le(b, c)
      ensures le(a, c)
    {
      LexLeTransitive(SortKey(pinyin, a), SortKey(pinyin, b), SortKey(pinyin, c));
    }
  }

  /** The questions are in sort-key order. */
  predicate KeySorted(pinyin: string -> string, xs: seq<string>) {
    forall i, j :: 0 <= i < j < |xs| ==> LexLe(SortKey(pinyin, xs[i]), SortKey(pinyin, xs[j]))
  }

  /** `sorted(questions, key=…)`: a permutation of the questions in sort-key order. */
  function SortByPinyin(pinyin: string -> string, qs: seq<string>): (r: seq<string>)
    ensures multiset(r) == multiset(qs)
    ensures KeySorted(pinyin, r)
  {
    PinyinOrderIsTotalOrder(pinyin);
    var r := Sorting.SortBy(qs, PinyinOrder(pinyin));
    assert Sorting.SortedBy(r, PinyinOrder(pinyin));
    r
  }

  /** The titles of the seven buckets, in the order the listing shows them. */
  const BucketNames: seq<string> := ["abcde", "fghij", "klmno", "pqrst", "uvwxyz", "0-9", "#"]

  /** The bucket of a lowered initial: its letter's group, the digits, or `#` for anything else. */
  function BucketOf(c: char): (b: nat)
    ensures b < |BucketNames|
    ensures 'a' <= c <= 'z' ==> b < 5 && c in BucketNames[b]
    ensures '0' <= c <= '9' ==> BucketNames[b] == "0-9"
    ensures !('a' <= c <= 'z') && !('0' <= c <= '9') ==> BucketNames[b] == "#"
  {
    if '0' <= c <= '9' then 5
    else if 'a' <= c <= 'e' then 0
    else if 'f' <= c <= 'j' then 1
    else if 'k' <= c <= 'o' then 2
    else if 'p' <= c <= 't' then 3
    else if 'u' <= c <= 'z' then 4
    else 6
  }

  /** `lazy_pinyin(q[0])[0][0].lower()` can be computed for every question. */
  predicate HasInitials(pinyin: string -> string, qs: seq<string>) {
    forall i :: 0 <= i < |qs| ==> |qs[i]| > 0 && |pinyin(qs[i][..1])| > 0
  }

  /** `lazy_pinyin(q[0])[0][0].lower()`: the initial that picks the bucket. */
  function Initial(pinyin: string -> string, q: string): char
    requires |q| > 0 && |pinyin(q[..1])| > 0
  {
    LowerChar(pinyin(q[..1])[0])
  }

  /** The questions that fall in bucket `b`, in list order. */
  function InBucket(pinyin: string -> string, qs: seq<string>, b: nat): seq<string>
    requires HasInitials(pinyin, qs)
  {
    if |qs| == 0 then []
    else
      var prefix := qs[..|qs| - 1];
      var q := qs[|qs| - 1];
      assert HasInitials(pinyin, prefix);
      InBucket(pinyin, prefix, b) + (if BucketOf(Initial(pinyin, q)) == b then [q] else [])
  }

  /** The bucketing loop of `drawQuestionCardByPinyin`, appending each question to its bucket. */
  method BucketLoop(pinyin: string -> string, qs: seq<string>) returns (buckets: seq<seq<string>>)
    requires HasInitials(pinyin, qs)
    ensures |buckets| == |BucketNames|
    ensures forall b :: 0 <= b < |buckets| ==> buckets[b] == InBucket(pinyin, qs, b)
  {
    buckets := [[], [], [], [], [], [], []];
    var n := 0;
    while n < |qs|
      invariant 0 <= n <= |qs|
      invariant |buckets| == |BucketNames|
      invariant HasInitials(pinyin, qs[..n])
      invariant forall b :: 0 <= b < |buckets| ==> buckets[b] == InBucket(pinyin, qs[..n], b)
    {
      var q := qs[n];
      var b := BucketOf(Initial(pinyin, q));
      assert qs[..n + 1][..n] == qs[..n];
      buckets := buckets[b := buckets[b] + [q]];
      n := n + 1;
    }
    assert qs[..n] == qs;
  }

  /** Every question lands in exactly one bucket: the bucket sizes add up to the number of questions. */
  lemma {:induction false} BucketsPartition(pinyin: string -> string, qs: seq<string>)
    requires HasInitials(pinyin, qs)
    ensures |InBucket(pinyin, qs, 0)| + |InBucket(pinyin, qs, 1)| + |InBucket(pinyin, qs, 2)|
      + |InBucket(pinyin, qs, 3)| + |InBucket(pinyin, qs, 4)| + |InBucket(pinyin, qs, 5)|
      + |InBucket(pinyin, qs, 6)| == |qs|
  {
    if |qs| > 0 {
      var prefix := qs[..|qs| - 1];
      assert HasInitials(pinyin, prefix);
      BucketsPartition(pinyin, prefix);
    }
  }

  /** A bucket keeps the order of the list it is drawn from, so buckets of a sorted list are sorted. */
  lemma {:induction false} InBucketSorted(pinyin: string -> string, qs: seq<string>, b: nat)
    requires HasInitials(pinyin, qs)
    requires KeySorted(pinyin, qs)
    ensures forall x :: x in InBucket(pinyin, qs, b) ==> x in qs
    ensures KeySorted(pinyin, InBucket(pinyin, qs, b))
  {
    if |qs| > 0 {
      var prefix := qs[..|qs| - 1];
      var q := qs[|qs| - 1];
      assert HasInitials(pinyin, prefix);
      InBucketSorted(pinyin, prefix, b);
      var p := InBucket(pinyin, prefix, b);
      var r := InBucket(pinyin, qs, b);
      assert forall k :: 0 <= k < |prefix| ==> prefix[k] == qs[k];
      if BucketOf(Initial(pinyin, q)) == b {
        assert r == p + [q];
        forall i, j | 0 <= i < j < |r|
          ensures LexLe(SortKey(pinyin, r[i]), SortKey(pinyin, r[j]))
        {
          if j == |p| {
            assert p[i] in p;
            var k :| 0 <= k < |prefix| && prefix[k] == p[i];
            assert r[i] == qs[k] && r[j] == qs[|qs| - 1];
          } else {
            assert r[i] == p[i] && r[j] == p[j];
            assert KeySorted(pinyin, p);
          }
        }
      } else {
        assert r == p;
      }
    }
  }

  /** A question is in the bucket of its initial. */
  lemma {:induction false} InBucketOfInitial(pinyin: string -> string, qs: seq<string>, i: nat)
    requires HasInitials(pinyin, qs)
    requires i < |qs|
    ensures qs[i] in InBucket(pinyin, qs, BucketOf(Initial(pinyin, qs[i])))
  {
    var prefix := qs[..|qs| - 1];
    assert HasInitials(pinyin, prefix);
    if i < |qs| - 1 {
      assert prefix[i] == qs[i];
      InBucketOfInitial(pinyin, prefix, i);
    }
  }

  /** The listing of an already sorted list: its seven buckets. */
  function Buckets(pinyin: string -> string, sorted: seq<string>): (r: seq<seq<string>>)
    requires HasInitials(pinyin, sorted)
    ensures |r| == |BucketNames|
  {
    seq(|BucketNames|, b requires 0 <= b < |BucketNames| => InBucket(pinyin, sorted, b))
  }

  /** Sorting keeps the questions, so it keeps their initials computable. */
  lemma SortKeepsInitials(pinyin: string -> string, qs: seq<string>)
    requires HasInitials(pinyin, qs)
    ensures HasInitials(pinyin, SortByPinyin(pinyin, qs))
  {
    var sorted := SortByPinyin(pinyin, qs);
    forall i | 0 <= i < |sorted|
      ensures |sorted[i]| > 0 && |pinyin(sorted[i][..1])| > 0
    {
      assert sorted[i] in multiset(qs);
    }
  }

  /**
   The pinyin listing: `None` when some question has no first character or no
   pinyin initial (the drawing code raises there), otherwise the seven
   buckets of the sorted questions.
   */
  function PinyinListing(pinyin: string -> string, qs: seq<string>): (r: Option<seq<seq<string>>>)
    ensures r.Some? <==> HasInitials(pinyin, qs)
    ensures r.Some? ==> |r.value| == |BucketNames|
  {
    if !HasInitials(pinyin, qs) then None
    else
      SortKeepsInitials(pinyin, qs);
      Some(Buckets(pinyin, SortByPinyin(pinyin, qs)))
  }

  /** Each question of `qs` is shown in the bucket of its initial, whatever order `sorted` puts them in. */
  lemma BucketsShowAll(pinyin: string -> string, qs: seq<string>, sorted: seq<string>)
    requires HasInitials(pinyin, qs) && HasInitials(pinyin, sorted)
    requires multiset(sorted) == multiset(qs)
    ensures forall i :: 0 <= i < |qs| ==> qs[i] in Buckets(pinyin, sorted)[BucketOf(Initial(pinyin, qs[i]))]
  {
    forall i | 0 <= i < |qs|
      ensures qs[i] in Buckets(pinyin, sorted)[BucketOf(Initial(pinyin, qs[i]))]
    {
      assert qs[i] in multiset(sorted);
      var j :| 0 <= j < |sorted| && sorted[j] == qs[i];
      InBucketOfInitial(pinyin, sorted, j);
    }
  }

  /** The buckets of a list in sort-key order are each in sort-key order, and hold only its entries. */
  lemma BucketsSorted(pinyin: string -> string, sorted: seq<string>)
    requires HasInitials(pinyin, sorted)
    requires KeySorted(pinyin, sorted)
    ensures forall b :: 0 <= b < |BucketNames| ==> KeySorted(pinyin, Buckets(pinyin, sorted)[b])
    ensures forall b, x :: 0 <= b < |BucketNames| && x in Buckets(pinyin, sorted)[b] ==> x in sorted
  {
    forall b | 0 <= b < |BucketNames|
      ensures KeySorted(pinyin, Buckets(pinyin, sorted)[b])
      ensures forall x :: x in Buckets(pinyin, sorted)[b] ==> x in sorted
    {
      InBucketSorted(pinyin, sorted, b);
    }
  }

  /** The buckets of a permutation of `qs` hold only questions of `qs`. */
  lemma BucketsHoldOnly(pinyin: string -> string, qs: seq<string>, sorted: seq<string>)
    requires HasInitials(pinyin, sorted) && KeySorted(pinyin, sorted)
    requires multiset(sorted) == multiset(qs)
    ensures forall b, x :: 0 <= b < |BucketNames| && x in Buckets(pinyin, sorted)[b] ==> x in qs
  {
    forall b, x | 0 <= b < |BucketNames| && x in Buckets(pinyin, sorted)[b]
      ensures x in qs
    {
      InBucketSorted(pinyin, sorted, b);
      assert x in sorted;
      assert x in multiset(sorted);
    }
  }

  /** The bucket sizes of a permutation of `qs` add up to `|qs|`. */
  lemma BucketsCount(pinyin: string -> string, qs: seq<string>, sorted: seq<string>)
    requires HasInitials(pinyin, sorted)
    requires multiset(sorted) == multiset(qs)
    ensures var buckets := Buckets(pinyin, sorted);
      |buckets[0]| + |buckets[1]| + |buckets[2]| + |buckets[3]| + |buckets[4]| + |buckets[5]| + |buckets[6]| == |qs|
  {
    BucketsPartition(pinyin, sorted);
    assert |multiset(sorted)| == |multiset(qs)|;
  }

  /**
   Every question of the listing is shown in the bucket of its initial, every
   bucket is in sort-key order and holds only questions of the listing, and
   the buckets hold as many entries as there are questions.
   */
  lemma PinyinListingSpec(pinyin: string -> string, qs: seq<string>)
    requires HasInitials(pinyin, qs)
    ensures var buckets := PinyinListing(pinyin, qs).value;
      && (forall i :: 0 <= i < |qs| ==> qs[i] in buckets[BucketOf(Initial(pinyin, qs[i]))])
      && (forall b :: 0 <= b < |buckets| ==> KeySorted(pinyin, buckets[b]))
      && (forall b, x :: 0 <= b < |buckets| && x in buckets[b] ==> x in qs)
      && |buckets[0]| + |buckets[1]| + |buckets[2]| + |buckets[3]| + |buckets[4]| + |buckets[5]| + |buckets[6]| == |qs|
  {
    var sorted := SortByPinyin(pinyin, qs);
    SortKeepsInitials(pinyin, qs);
    BucketsShowAll(pinyin, qs, sorted);
    BucketsSorted(pinyin, sorted);
    BucketsCount(pinyin, qs, sorted);
    BucketsHoldOnly(pinyin, qs, sorted);
    assert PinyinListing(pinyin, qs) == Some(Buckets(pinyin, sorted));
  }
}
