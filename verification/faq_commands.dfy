/**
 The FAQ plugins on the store of group tables: the `faq <mode>` sub-commands
 of `MaintainFAQ` with their dispatch table, and the `问 <key>` / `q <key>`
 lookup of `AskFAQ`. Replies are returned as values; the admin roster, the
 pinyin romanisation and the fate of the storage statements come in as an
 environment.
 */
module FaqCommands {
  import opened Wrappers
  import opened Text
  import opened BotEvent
  import opened FaqLedger
  import opened FaqSyntax
  import Facts = FaqLedgerFacts
  import FaqListing

  // ---------------------------------------------------------------- modes and replies

  /** The handlers of the mode table. */
  datatype Mode = Show | Add | Edit | Copy | Delete | Append | Tag | RollBack | ShowHistory

  /** The keys of the mode table. */
  const ModeNames: set<string> := {"show", "ls", "new", "add", "edit", "cp", "del", "append", "tag", "rollback", "history"}

  /** `modMap.get(mod)`: `ls` is another name for `show`, `new` for `add`. */
  function ModeOf(name: string): (r: Option<Mode>)
    ensures r.Some? <==> name in ModeNames
  {
    if name == "show" || name == "ls" then Some(Show)
    else if name == "new" || name == "add" then Some(Add)
    else if name == "edit" then Some(Edit)
    else if name == "cp" then Some(Copy)
    else if name == "del" then Some(Delete)
    else if name == "append" then Some(Append)
    else if name == "tag" then Some(Tag)
    else if name == "rollback" then Some(RollBack)
    else if name == "history" then Some(ShowHistory)
    else None
  }

  /** The name the help text gives each mode. */
  function ModeName(m: Mode): string {
    match m
    case Show => "show"
    case Add => "add"
    case Edit => "edit"
    case Copy => "cp"
    case Delete => "del"
    case Append => "append"
    case Tag => "tag"
    case RollBack => "rollback"
    case ShowHistory => "history"
  }

  /** Every mode is reached by its own name; the two aliases reach `show` and `add`. */
  lemma ModeTable(m: Mode)
    ensures ModeOf(ModeName(m)) == Some(m)
    ensures ModeOf("ls") == Some(Show) && ModeOf("new") == Some(Add)
    ensures forall name :: ModeOf(name) == Some(m) ==> name == ModeName(m) || name == "ls" || name == "new"
  {
  }

  /** What a command reports to the group. */
  datatype Reply =
    | Usage                                    // the operand did not parse
    | BadMode                                  // the mode is not in the table
    | Exists(key: string)                      // `faq add` of a question that has an answer
    | Missing(key: string)                     // the question has no answer
    | Answered(answer: string, key: string)    // an answer, shown under its question
    | NotAnswered                              // the lookup found nothing
    | UpdateFailed
    | CopyFailed
    | DeleteDone
    | DeleteFailed
    | Ok
    | NoRights                                 // the sender is not a group admin
    | NoRecord(key: string)                    // rollback found nothing to undo
    | PinyinCard(buckets: seq<seq<string>>)
    | TagCard(groups: seq<(string, seq<string>)>)
    | HistoryCard(rows: seq<Record>)

  /**
   What the handlers may not compute themselves: the group's admins, the
   romanisation `lazy_pinyin` gives a one-character string, and how the
   storage statements of this command fare.
   */
  datatype Env = Env(admins: set<int>, pinyin: string -> string, fault: Fault)

  /**
   A handled event: the new store, the reply and the value `executeEvent`
   returns, or an exception out of `executeEvent`. By the plugin protocol a
   returned `None` lets the caller go on to the following plugins and `"OK"`
   stops it.
   */
  datatype Outcome = Done(store: Store, reply: Reply, returned: Option<string>) | Raised

  /** What `MaintainFAQ.executeEvent` returns for every message it parses. */
  const Stop: Option<string> := Some("OK")

  /**
   Which `faq del` handler the mode table holds: `AsWritten` is the table as
   the plugin builds it, whose delete acts on the key's first character;
   `Corrected` holds the whole-key delete instead.
   */
  datatype Edition = AsWritten | Corrected

  // ---------------------------------------------------------------- writing to the store

  /** The store with group `g`'s table replaced by `t`; an unchanged table is not written. */
  function Commit(s: Store, g: int, t: Table): (r: Store)
    ensures TableOf(r, g) == t
    ensures r - {g} == s - {g}
    ensures TableOf(s, g) == t ==> r == s
  {
    if TableOf(s, g) == t then s else s[g := t]
  }

  /** Replacing one table by a well-formed one keeps the store well formed. */
  lemma CommitWellFormed(s: Store, g: int, t: Table)
    requires StoreWellFormed(s) && WellFormed(t)
    ensures StoreWellFormed(Commit(s, g, t))
  {
  }

  /** Replacing one table by a complete one keeps the store complete. */
  lemma CommitComplete(s: Store, g: int, t: Table)
    requires StoreComplete(s) && Complete(t)
    ensures StoreComplete(Commit(s, g, t))
  {
  }

  /** Other groups keep their tables and group `g` gains at most one row. */
  predicate AtMostOneRow(s: Store, s': Store, g: int) {
    && s' - {g} == s - {g}
    && |TableOf(s', g).records| <= |TableOf(s, g).records| + 1
  }

  /**
   At most one write to question `q` of group `g`: other groups keep their
   tables, `g` gains at most one row, and every other question of `g` reads
   as before.
   */
  ghost predicate Framed(s: Store, s': Store, g: int, q: string) {
    && AtMostOneRow(s, s', g)
    && forall q' :: q' != q ==> GetAnswer(TableOf(s', g), q') == GetAnswer(TableOf(s, g), q')
  }

  /**
   A put of `(q, a, tag, delete)` landed in group `g`: exactly one row was
   appended, holding those values, and `q` now reads as `a` (or as absent,
   for a tombstone).
   */
  predicate Landed(s: Store, s': Store, g: int, q: string, a: string, tag: string, delete: bool) {
    var n := |TableOf(s, g).records|;
    var t' := TableOf(s', g);
    && |t'.records| == n + 1
    && t'.records[n].question == q && t'.records[n].answer == a
    && t'.records[n].groupTag == tag && t'.records[n].deleted == delete
    && GetAnswer(t', q) == (if delete then (false, "") else (true, a))
  }

  /**
   `update_answer(group_id, q, a, data, tag, delete)` on the sender's table,
   with the sender as editor and the event time as the modification time.
   */
  function Save(s: Store, ctx: Ctx, q: string, a: string, tag: string, delete: bool, fault: Fault): (r: (Store, bool))
    ensures r.1 <==> fault.Healthy?
    ensures Framed(s, r.0, ctx.groupId, q)
    ensures fault.FailFirst? ==> r.0 == s
    ensures fault.Healthy? ==> Landed(s, r.0, ctx.groupId, q, a, tag, delete)
    ensures StoreWellFormed(s) ==> StoreWellFormed(r.0)
    ensures StoreWellFormed(s) && StoreComplete(s) && fault.Healthy? ==> StoreComplete(r.0)
  {
    var t := TableOf(s, ctx.groupId);
    var (t', ok) := Put(t, q, a, ctx.userId, ctx.time, tag, delete, fault);
    var s' := Commit(s, ctx.groupId, t');
    assert forall q' :: q' != q ==> GetAnswer(t', q') == GetAnswer(t, q') by {
      forall q' | q' != q
        ensures GetAnswer(t', q') == GetAnswer(t, q')
      {
        Facts.PutKeepsOtherQuestions(t, q, a, ctx.userId, ctx.time, tag, delete, fault, q');
      }
    }
    assert fault.Healthy? ==> GetAnswer(t', q) == (if delete then (false, "") else (true, a)) by {
      Facts.PutThenGet(t, q, a, ctx.userId, ctx.time, tag, delete);
    }
    assert StoreWellFormed(s) ==> StoreWellFormed(s') by {
      if StoreWellFormed(s) {
        Facts.PutPreservesWellFormed(t, q, a, ctx.userId, ctx.time, tag, delete, fault);
        CommitWellFormed(s, ctx.groupId, t');
      }
    }
    assert StoreWellFormed(s) && StoreComplete(s) && fault.Healthy? ==> StoreComplete(s') by {
      if StoreWellFormed(s) && StoreComplete(s) && fault.Healthy? {
        Facts.PutPreservesComplete(t, q, a, ctx.userId, ctx.time, tag, delete);
        CommitComplete(s, ctx.groupId, t');
      }
    }
    (s', ok)
  }

  /** `q` has at least one row in `t`. */
  predicate HasRows(t: Table, q: string) {
    exists i :: 0 <= i < |t.records| && t.records[i].question == q
  }

  /** `rollback_answer(group_id, q)` on group `g`'s table. */
  function Unwind(s: Store, g: int, q: string, fault: Fault): (r: (Store, bool))
    ensures r.1 <==> fault.Healthy? && HasRows(TableOf(s, g), q)
    ensures r.0 - {g} == s - {g}
    ensures !HasRows(TableOf(s, g), q) || fault.FailFirst? ==> r.0 == s
    ensures WellFormed(TableOf(s, g)) && r.1 ==>
      var rs := TableOf(s, g).records;
      var k := Facts.LastIndex(rs, q).value;
      TableOf(r.0, g).records == Facts.Relatch(Facts.Without(rs, k), q)
    ensures WellFormed(TableOf(s, g)) ==>
      forall q' :: q' != q ==> GetAnswer(TableOf(r.0, g), q') == GetAnswer(TableOf(s, g), q')
    ensures StoreWellFormed(s) ==> StoreWellFormed(r.0)
    ensures StoreWellFormed(s) && StoreComplete(s) && fault.Healthy? ==> StoreComplete(r.0)
  {
    var t := TableOf(s, g);
    var (t', ok) := Rollback(t, q, fault);
    var s' := Commit(s, g, t');
    assert WellFormed(t) && ok ==>
      t'.records == Facts.Relatch(Facts.Without(t.records, Facts.LastIndex(t.records, q).value), q) by {
      if WellFormed(t) && ok {
        Facts.RollbackRemovesNewest(t, q, Facts.LastIndex(t.records, q).value);
      }
    }
    assert WellFormed(t) ==> forall q' :: q' != q ==> GetAnswer(t', q') == GetAnswer(t, q') by {
      if WellFormed(t) {
        forall q' | q' != q
          ensures GetAnswer(t', q') == GetAnswer(t, q')
        {
          Facts.RollbackKeepsOtherQuestions(t, q, fault, q');
        }
      }
    }
    assert StoreWellFormed(s) ==> StoreWellFormed(s') by {
      if StoreWellFormed(s) {
        Facts.RollbackPreservesWellFormed(t, q, fault);
        CommitWellFormed(s, g, t');
      }
    }
    assert StoreWellFormed(s) && StoreComplete(s) && fault.Healthy? ==> StoreComplete(s') by {
      if StoreWellFormed(s) && StoreComplete(s) && fault.Healthy? {
        Facts.RollbackPreservesComplete(t, q);
        CommitComplete(s, g, t');
      }
    }
    (s', ok)
  }

  /**
   A guarded put went through: at most the one write, nothing at all when
   the first statement failed, and the reply `done` exactly when the put
   landed, `failed` otherwise.
   */
  ghost predicate Wrote(s: Store, r: (Store, Reply), g: int, q: string, a: string, tag: string, delete: bool,
                  fault: Fault, done: Reply, failed: Reply) {
    && Framed(s, r.0, g, q)
    && (fault.FailFirst? ==> r.0 == s)
    && (fault.Healthy? ==> r.1 == done && Landed(s, r.0, g, q, a, tag, delete))
    && (!fault.Healthy? ==> r.1 == failed)
  }

  // ---------------------------------------------------------------- the sub-commands

  /** `faq add <key> <answer>`: creates a question only if it has no answer; a tombstoned question counts as absent. */
  function FaqAdd(s: Store, cmd: string, ctx: Ctx, fault: Fault): (r: (Store, Reply))
    ensures AtMostOneRow(s, r.0, ctx.groupId)
    ensures MatchKeyRest(cmd).None? ==> r == (s, Usage)
    ensures MatchKeyRest(cmd).Some? ==>
      var (q, a) := MatchKeyRest(cmd).value;
      if GetAnswer(TableOf(s, ctx.groupId), q).0 then r == (s, Exists(q))
      else Wrote(s, r, ctx.groupId, q, a, "", false, fault, Answered(a, q), UpdateFailed)
  {
    match MatchKeyRest(cmd)
    case None => (s, Usage)
    case Some((q, a)) =>
      if GetAnswer(TableOf(s, ctx.groupId), q).0 then (s, Exists(q))
      else
        var (s', ok) := Save(s, ctx, q, a, "", false, fault);
        (s', if ok then Answered(a, q) else UpdateFailed)
  }

  /** `faq edit <key> <answer>`: replaces the answer of a question that has one. */
  function FaqEdit(s: Store, cmd: string, ctx: Ctx, fault: Fault): (r: (Store, Reply))
    ensures AtMostOneRow(s, r.0, ctx.groupId)
    ensures MatchKeyRest(cmd).None? ==> r == (s, Usage)
    ensures MatchKeyRest(cmd).Some? ==>
      var (q, a) := MatchKeyRest(cmd).value;
      if !GetAnswer(TableOf(s, ctx.groupId), q).0 then r == (s, Missing(q))
      else Wrote(s, r, ctx.groupId, q, a, "", false, fault, Answered(a, q), UpdateFailed)
  {
    match MatchKeyRest(cmd)
    case None => (s, Usage)
    case Some((q, a)) =>
      if !GetAnswer(TableOf(s, ctx.groupId), q).0 then (s, Missing(q))
      else
        var (s', ok) := Save(s, ctx, q, a, "", false, fault);
        (s', if ok then Answered(a, q) else UpdateFailed)
  }

  /**
   `faq cp <key> <new key>`: writes the current answer of `key` under `new
   key`, untagged, whether or not `new key` already has an answer; `key`
   itself keeps its answer.
   */
  function FaqCp(s: Store, cmd: string, ctx: Ctx, fault: Fault): (r: (Store, Reply))
    ensures AtMostOneRow(s, r.0, ctx.groupId)
    ensures MatchTwoWords(cmd).None? ==> r == (s, Usage)
    ensures MatchTwoWords(cmd).Some? ==>
      var (from, to) := MatchTwoWords(cmd).value;
      var t := TableOf(s, ctx.groupId);
      if !GetAnswer(t, from).0 then r == (s, Missing(from))
      else
        var a := GetAnswer(t, from).1;
        && Wrote(s, r, ctx.groupId, to, a, "", false, fault, Answered(a, to), CopyFailed)
        && (fault.Healthy? || from != to ==> GetAnswer(TableOf(r.0, ctx.groupId), from) == (true, a))
  {
    match MatchTwoWords(cmd)
    case None => (s, Usage)
    case Some((from, to)) =>
      var found := GetAnswer(TableOf(s, ctx.groupId), from);
      if !found.0 then (s, Missing(from))
      else
        var (s', ok) := Save(s, ctx, to, found.1, "", false, fault);
        (s', if ok then Answered(found.1, to) else CopyFailed)
  }

  /** Deleting `q`: a tombstone (empty answer, `deleted`) appended when `q` has an answer. */
  function Tombstone(s: Store, q: string, ctx: Ctx, fault: Fault): (r: (Store, Reply))
    ensures if !GetAnswer(TableOf(s, ctx.groupId), q).0 then r == (s, Missing(q))
      else Wrote(s, r, ctx.groupId, q, "", "", true, fault, DeleteDone, DeleteFailed)
  {
    if !GetAnswer(TableOf(s, ctx.groupId), q).0 then (s, Missing(q))
    else
      var (s', ok) := Save(s, ctx, q, "", "", true, fault);
      (s', if ok then DeleteDone else DeleteFailed)
  }

  /**
   `faq del <key>` as written: the handler takes the first character of the
   parsed key (`findall` already returns the key string, and it is indexed
   once more), so it looks up and tombstones that one-character question.
   */
  function FaqDelAsWritten(s: Store, cmd: string, ctx: Ctx, fault: Fault): (r: (Store, Reply))
    ensures AtMostOneRow(s, r.0, ctx.groupId)
    ensures MatchWordSpaces(cmd).None? ==> r == (s, Usage)
    ensures MatchWordSpaces(cmd).Some? ==>
      var q := MatchWordSpaces(cmd).value[..1];
      if !GetAnswer(TableOf(s, ctx.groupId), q).0 then r == (s, Missing(q))
      else Wrote(s, r, ctx.groupId, q, "", "", true, fault, DeleteDone, DeleteFailed)
  {
    match MatchWordSpaces(cmd)
    case None => (s, Usage)
    case Some(word) => Tombstone(s, word[..1], ctx, fault)
  }

  /** `faq del <key>` as intended: tombstones the whole key. */
  function FaqDel(s: Store, cmd: string, ctx: Ctx, fault: Fault): (r: (Store, Reply))
    ensures AtMostOneRow(s, r.0, ctx.groupId)
    ensures MatchWordSpaces(cmd).None? ==> r == (s, Usage)
    ensures MatchWordSpaces(cmd).Some? ==>
      var q := MatchWordSpaces(cmd).value;
      if !GetAnswer(TableOf(s, ctx.groupId), q).0 then r == (s, Missing(q))
      else Wrote(s, r, ctx.groupId, q, "", "", true, fault, DeleteDone, DeleteFailed)
  {
    match MatchWordSpaces(cmd)
    case None => (s, Usage)
    case Some(word) => Tombstone(s, word, ctx, fault)
  }

  /**
   `faq append <key> <text>`: the new answer is the old answer immediately
   followed by everything after the one space character that ends the key.
   */
  function FaqAppend(s: Store, cmd: string, ctx: Ctx, fault: Fault): (r: (Store, Reply))
    ensures AtMostOneRow(s, r.0, ctx.groupId)
    ensures MatchAppend(cmd).None? ==> r == (s, Usage)
    ensures MatchAppend(cmd).Some? ==>
      var (q, more) := MatchAppend(cmd).value;
      var t := TableOf(s, ctx.groupId);
      if !GetAnswer(t, q).0 then r == (s, Missing(q))
      else
        var a := GetAnswer(t, q).1 + more;
        Wrote(s, r, ctx.groupId, q, a, "", false, fault, Answered(a, q), UpdateFailed)
  {
    match MatchAppend(cmd)
    case None => (s, Usage)
    case Some((q, more)) =>
      var found := GetAnswer(TableOf(s, ctx.groupId), q);
      if !found.0 then (s, Missing(q))
      else
        var a := found.1 + more;
        var (s', ok) := Save(s, ctx, q, a, "", false, fault);
        (s', if ok then Answered(a, q) else UpdateFailed)
  }

  /** `faq tag <key> <tag>`: rewrites the unchanged current answer with the tag. */
  function FaqTag(s: Store, cmd: string, ctx: Ctx, fault: Fault): (r: (Store, Reply))
    ensures AtMostOneRow(s, r.0, ctx.groupId)
    ensures MatchTwoWords(cmd).None? ==> r == (s, Usage)
    ensures MatchTwoWords(cmd).Some? ==>
      var (q, tag) := MatchTwoWords(cmd).value;
      var t := TableOf(s, ctx.groupId);
      if !GetAnswer(t, q).0 then r == (s, Missing(q))
      else Wrote(s, r, ctx.groupId, q, GetAnswer(t, q).1, tag, false, fault, Ok, UpdateFailed)
  {
    match MatchTwoWords(cmd)
    case None => (s, Usage)
    case Some((q, tag)) =>
      var found := GetAnswer(TableOf(s, ctx.groupId), q);
      if !found.0 then (s, Missing(q))
      else
        var (s', ok) := Save(s, ctx, q, found.1, tag, false, fault);
        (s', if ok then Ok else UpdateFailed)
  }

  /**
   `faq rollback <key>`: syntax first, then admin rights, then the rollback,
   which drops the newest row of the key and re-marks the one before it.
   */
  function FaqRollBack(s: Store, cmd: string, ctx: Ctx, admins: set<int>, fault: Fault): (r: (Store, Reply))
    ensures AtMostOneRow(s, r.0, ctx.groupId)
    ensures MatchWord(cmd).None? ==> r == (s, Usage)
    ensures MatchWord(cmd).Some? && ctx.userId !in admins ==> r == (s, NoRights)
    ensures MatchWord(cmd).Some? && ctx.userId in admins ==>
      var t := TableOf(s, ctx.groupId);
      && r.0 - {ctx.groupId} == s - {ctx.groupId}
      && (r.1 == Ok <==> fault.Healthy? && HasRows(t, cmd))
      && (r.1 != Ok ==> r.1 == NoRecord(cmd))
      && (!HasRows(t, cmd) || fault.FailFirst? ==> r.0 == s)
      && (WellFormed(t) && r.1 == Ok ==> |TableOf(r.0, ctx.groupId).records| == |t.records| - 1)
      && (WellFormed(t) ==> forall q' :: q' != cmd ==> GetAnswer(TableOf(r.0, ctx.groupId), q') == GetAnswer(t, q'))
  {
    match MatchWord(cmd)
    case None => (s, Usage)
    case Some(q) =>
      if ctx.userId !in admins then (s, NoRights)
      else
        var (s', ok) := Unwind(s, ctx.groupId, q, fault);
        (s', if ok then Ok else NoRecord(q))
  }

  /** `faq history <key>`: syntax first, then admin rights, then the key's rows, newest first, at most 20. */
  function FaqHistory(s: Store, cmd: string, ctx: Ctx, admins: set<int>): (r: Reply)
    ensures MatchWord(cmd).None? ==> r == Usage
    ensures MatchWord(cmd).Some? && ctx.userId !in admins ==> r == NoRights
    ensures MatchWord(cmd).Some? && ctx.userId in admins ==>
      var t := TableOf(s, ctx.groupId);
      && r.HistoryCard?
      && |r.rows| == (if |RowsOf(t.records, cmd)| < HistoryLimit then |RowsOf(t.records, cmd)| else HistoryLimit)
      && (forall x :: x in r.rows ==> x in t.records && x.question == cmd)
      && (forall i, j :: 0 <= i < j < |r.rows| ==> r.rows[i].faqSeq >= r.rows[j].faqSeq)
  {
    match MatchWord(cmd)
    case None => Usage
    case Some(q) =>
      if ctx.userId !in admins then NoRights
      else HistoryCard(History(TableOf(s, ctx.groupId), q))
  }

  /**
   `faq show` / `faq show -1`: the answered questions bucketed by pinyin
   initial, raising when one has no initial; `faq show -2`: the answered
   questions grouped by tag; anything else is a usage error.
   */
  function FaqShow(s: Store, cmd: string, ctx: Ctx, pinyin: string -> string): (r: Option<Reply>)
    ensures cmd == "" || cmd == "-1" ==>
      var qs := ActiveQuestions(TableOf(s, ctx.groupId));
      && (r.Some? <==> FaqListing.HasInitials(pinyin, qs))
      && (r.Some? ==>
        && r.value.PinyinCard? && |r.value.buckets| == |FaqListing.BucketNames|
        && (forall i :: 0 <= i < |qs| ==> qs[i] in r.value.buckets[FaqListing.BucketOf(FaqListing.Initial(pinyin, qs[i]))])
        && (forall b :: 0 <= b < |r.value.buckets| ==> FaqListing.KeySorted(pinyin, r.value.buckets[b]))
        && (forall b, x :: 0 <= b < |r.value.buckets| && x in r.value.buckets[b] ==> x in qs)
        && var bs := r.value.buckets;
        && |bs[0]| + |bs[1]| + |bs[2]| + |bs[3]| + |bs[4]| + |bs[5]| + |bs[6]| == |qs|)
    ensures cmd == "-2" ==>
      var rows := ActiveTagged(TableOf(s, ctx.groupId));
      && r.Some? && r.value.TagCard?
      && FaqListing.Keys(r.value.groups) == FaqListing.TagsInOrder(rows)
      && (forall i :: 0 <= i < |r.value.groups| ==> r.value.groups[i].1 == FaqListing.Tagged(rows, r.value.groups[i].0))
    ensures cmd != "" && cmd != "-1" && cmd != "-2" ==> r == Some(Usage)
  {
    var t := TableOf(s, ctx.groupId);
    if cmd == "" || cmd == "-1" then
      var qs := ActiveQuestions(t);
      match FaqListing.PinyinListing(pinyin, qs)
      case None => None
      case Some(buckets) =>
        FaqListing.PinyinListingSpec(pinyin, qs);
        Some(PinyinCard(buckets))
    else if cmd == "-2" then
      FaqListing.GroupByTagSpec(ActiveTagged(t));
      Some(TagCard(FaqListing.GroupByTag(ActiveTagged(t))))
    else Some(Usage)
  }

  // ---------------------------------------------------------------- MaintainFAQ

  /**
   `MaintainFAQ.judgeTrigger`: a group message of the `faq <mode> …` shape.
   The event it accepts is then handled without an exception except by
   `faq show`/`faq ls`, and always answers `"OK"`, which stops the dispatch;
   a group message it rejects would make `executeEvent` raise.
   */
  function MaintainTrigger(msg: string, ctx: Ctx): (r: bool)
    ensures r ==> ctx.isGroup
    ensures r ==> MatchMode(msg).Some? && forall s: Store, env: Env, ed: Edition ::
      var o := MaintainExecute(s, msg, ctx, env, ed);
      && (o.Raised? ==> ModeOf(MatchMode(msg).value.0) == Some(Show))
      && (o.Done? ==> o.returned == Stop)
    ensures !r && ctx.isGroup ==> forall s: Store, env: Env, ed: Edition :: MaintainExecute(s, msg, ctx, env, ed).Raised?
  {
    MatchMode(msg).Some? && ctx.isGroup
  }

  /**
   Runs the handler of mode `m` on its operand, with the `faq del` handler of
   edition `ed`; `executeEvent` then returns `"OK"`.
   */
  function Run(s: Store, m: Mode, cmd: string, ctx: Ctx, env: Env, ed: Edition): (r: Outcome)
    ensures r.Done? ==> AtMostOneRow(s, r.store, ctx.groupId) && r.returned == Stop
    ensures m.Show? || m.ShowHistory? ==> r.Done? ==> r.store == s
    ensures r.Raised? ==> m.Show?
  {
    match m
    case Show =>
      (match FaqShow(s, cmd, ctx, env.pinyin)
       case None => Raised
       case Some(reply) => Done(s, reply, Stop))
    case Add => var (s', reply) := FaqAdd(s, cmd, ctx, env.fault); Done(s', reply, Stop)
    case Edit => var (s', reply) := FaqEdit(s, cmd, ctx, env.fault); Done(s', reply, Stop)
    case Copy => var (s', reply) := FaqCp(s, cmd, ctx, env.fault); Done(s', reply, Stop)
    case Delete =>
      var (s', reply) := if ed.AsWritten? then FaqDelAsWritten(s, cmd, ctx, env.fault) else FaqDel(s, cmd, ctx, env.fault);
      Done(s', reply, Stop)
    case Append => var (s', reply) := FaqAppend(s, cmd, ctx, env.fault); Done(s', reply, Stop)
    case Tag => var (s', reply) := FaqTag(s, cmd, ctx, env.fault); Done(s', reply, Stop)
    case RollBack => var (s', reply) := FaqRollBack(s, cmd, ctx, env.admins, env.fault); Done(s', reply, Stop)
    case ShowHistory => Done(s, FaqHistory(s, cmd, ctx, env.admins), Stop)
  }

  /**
   `MaintainFAQ.executeEvent`: parse `faq <mode> <operand>`, look the mode up,
   and run its handler. A message that does not parse raises (the first
   `findall` result is taken unconditionally); an unknown mode gets the
   usage hint and changes nothing. With `AsWritten` this is the plugin's
   own dispatch; with `Corrected` only `faq del` differs.
   */
  function MaintainExecute(s: Store, msg: string, ctx: Ctx, env: Env, ed: Edition): (r: Outcome)
    ensures MatchMode(msg).None? ==> r.Raised?
    ensures MatchMode(msg).Some? && ModeOf(MatchMode(msg).value.0).None? ==> r == Done(s, BadMode, Stop)
    ensures r.Raised? ==> MatchMode(msg).None? || ModeOf(MatchMode(msg).value.0) == Some(Show)
    ensures r.Done? ==> AtMostOneRow(s, r.store, ctx.groupId) && r.returned == Stop
  {
    match MatchMode(msg)
    case None => Raised
    case Some((name, cmd)) =>
      match ModeOf(name)
      case None => Done(s, BadMode, Stop)
      case Some(m) => Run(s, m, cmd, ctx, env, ed)
  }

  /** Every sub-command keeps every table well formed, whatever its storage statements do. */
  lemma MaintainPreservesWellFormed(s: Store, msg: string, ctx: Ctx, env: Env, ed: Edition)
    requires StoreWellFormed(s)
    ensures MaintainExecute(s, msg, ctx, env, ed).Done? ==> StoreWellFormed(MaintainExecute(s, msg, ctx, env, ed).store)
  {
    match MatchMode(msg) {
      case None =>
      case Some((name, cmd)) =>
        match ModeOf(name) {
          case None =>
          case Some(m) => RunPreservesWellFormed(s, m, cmd, ctx, env, ed);
        }
    }
  }

  /** With every storage statement succeeding, every sub-command keeps every table complete. */
  lemma MaintainPreservesComplete(s: Store, msg: string, ctx: Ctx, env: Env, ed: Edition)
    requires StoreWellFormed(s) && StoreComplete(s) && env.fault.Healthy?
    ensures MaintainExecute(s, msg, ctx, env, ed).Done? ==> StoreComplete(MaintainExecute(s, msg, ctx, env, ed).store)
  {
    match MatchMode(msg) {
      case None =>
      case Some((name, cmd)) =>
        match ModeOf(name) {
          case None =>
          case Some(m) => RunPreservesComplete(s, m, cmd, ctx, env, ed);
        }
    }
  }

  /** The handlers keep every table well formed, whatever their statements do. */
  lemma RunPreservesWellFormed(s: Store, m: Mode, cmd: string, ctx: Ctx, env: Env, ed: Edition)
    requires StoreWellFormed(s)
    ensures Run(s, m, cmd, ctx, env, ed).Done? ==> StoreWellFormed(Run(s, m, cmd, ctx, env, ed).store)
  {
    var r := Run(s, m, cmd, ctx, env, ed);
    match m {
      case Show => assert r.Done? ==> r.store == s;
      case ShowHistory => assert r.store == s;
      case Add => assert r.store == FaqAdd(s, cmd, ctx, env.fault).0;
      case Edit => assert r.store == FaqEdit(s, cmd, ctx, env.fault).0;
      case Copy => assert r.store == FaqCp(s, cmd, ctx, env.fault).0;
      case Delete =>
        if ed.AsWritten? {
          assert r.store == FaqDelAsWritten(s, cmd, ctx, env.fault).0;
        } else {
          assert r.store == FaqDel(s, cmd, ctx, env.fault).0;
        }
      case Append => assert r.store == FaqAppend(s, cmd, ctx, env.fault).0;
      case Tag => assert r.store == FaqTag(s, cmd, ctx, env.fault).0;
      case RollBack => assert r.store == FaqRollBack(s, cmd, ctx, env.admins, env.fault).0;
    }
  }

  /** The handlers keep every table complete when every statement succeeds. */
  lemma RunPreservesComplete(s: Store, m: Mode, cmd: string, ctx: Ctx, env: Env, ed: Edition)
    requires StoreWellFormed(s) && StoreComplete(s) && env.fault.Healthy?
    ensures Run(s, m, cmd, ctx, env, ed).Done? ==> StoreComplete(Run(s, m, cmd, ctx, env, ed).store)
  {
    var r := Run(s, m, cmd, ctx, env, ed);
    match m {
      case Show => assert r.Done? ==> r.store == s;
      case ShowHistory => assert r.store == s;
      case Add => assert r.store == FaqAdd(s, cmd, ctx, env.fault).0;
      case Edit => assert r.store == FaqEdit(s, cmd, ctx, env.fault).0;
      case Copy => assert r.store == FaqCp(s, cmd, ctx, env.fault).0;
      case Delete =>
        if ed.AsWritten? {
          assert r.store == FaqDelAsWritten(s, cmd, ctx, env.fault).0;
        } else {
          assert r.store == FaqDel(s, cmd, ctx, env.fault).0;
        }
      case Append => assert r.store == FaqAppend(s, cmd, ctx, env.fault).0;
      case Tag => assert r.store == FaqTag(s, cmd, ctx, env.fault).0;
      case RollBack => assert r.store == FaqRollBack(s, cmd, ctx, env.admins, env.fault).0;
    }
  }

  // ---------------------------------------------------------------- AskFAQ

  /**
   `AskFAQ.judgeTrigger`: a group message of the `问 <key>` / `q <key>` shape.
   The event it accepts is then handled without an exception and returns
   `None`, so the dispatch goes on; a group message it rejects would make
   `executeEvent` raise.
   */
  function AskTrigger(msg: string, ctx: Ctx): (r: bool)
    ensures r ==> ctx.isGroup
    ensures r ==> forall s: Store :: AskExecute(s, msg, ctx).Done? && AskExecute(s, msg, ctx).returned.None?
    ensures !r && ctx.isGroup ==> forall s: Store :: AskExecute(s, msg, ctx).Raised?
  {
    MatchQuery(msg).Some? && ctx.isGroup
  }

  /**
   `AskFAQ.executeEvent`: the current answer of the queried key, or the
   not-found reply, with the store untouched. It falls off its end, so it
   returns `None`. A message that does not parse raises.
   */
  function AskExecute(s: Store, msg: string, ctx: Ctx): (r: Outcome)
    ensures r.Raised? <==> MatchQuery(msg).None?
    ensures r.Done? ==>
      var q := MatchQuery(msg).value;
      var rs := TableOf(s, ctx.groupId).records;
      && r.store == s && r.returned.None?
      && (r.reply.Answered? <==> exists i :: 0 <= i < |rs| && Active(rs[i], q))
      && (r.reply.Answered? ==> r.reply.key == q && exists i :: 0 <= i < |rs| && Active(rs[i], q) && rs[i].answer == r.reply.answer)
      && (!r.reply.Answered? ==> r.reply == NotAnswered)
  {
    match MatchQuery(msg)
    case None => Raised
    case Some(q) =>
      var (found, a) := GetAnswer(TableOf(s, ctx.groupId), q);
      Done(s, if found then Answered(a, q) else NotAnswered, None)
  }

  // ---------------------------------------------------------------- end to end

  /** `faq <name> <operand>` reaches the handler of `name` with exactly that operand. */
  lemma DispatchOf(s: Store, ctx: Ctx, env: Env, ed: Edition, name: string, m: Mode, cmd: string)
    requires ModeOf(name) == Some(m)
    requires |name| > 0 && NoSpace(name)
    requires |cmd| > 0 && !IsSpace(cmd[0])
    ensures MaintainExecute(s, "faq " + name + " " + cmd, ctx, env, ed) == Run(s, m, cmd, ctx, env, ed)
  {
    assert "faq " + name + " " + cmd == "faq" + " " + name + " " + cmd;
    MatchModeComplete(" ", name, " ", cmd);
  }

  /** The message `faq del <key>` runs the delete handler of the edition on the key. */
  lemma DelMessage(s: Store, ctx: Ctx, env: Env, k: string)
    requires |k| > 0 && NoSpace(k)
    ensures MaintainExecute(s, "faq del " + k, ctx, env, AsWritten) ==
      Done(FaqDelAsWritten(s, k, ctx, env.fault).0, FaqDelAsWritten(s, k, ctx, env.fault).1, Stop)
    ensures MaintainExecute(s, "faq del " + k, ctx, env, Corrected) ==
      Done(FaqDel(s, k, ctx, env.fault).0, FaqDel(s, k, ctx, env.fault).1, Stop)
  {
    assert "faq del " + k == "faq " + "del" + " " + k;
    DispatchOf(s, ctx, env, AsWritten, "del", Delete, k);
    DispatchOf(s, ctx, env, Corrected, "del", Delete, k);
    RunDelete(s, ctx, env, k);
  }

  /** The message `faq rollback <key>` runs the rollback handler on the key. */
  lemma RollBackMessage(s: Store, ctx: Ctx, env: Env, ed: Edition, k: string)
    requires |k| > 0 && NoSpace(k)
    ensures MaintainExecute(s, "faq rollback " + k, ctx, env, ed) ==
      Done(FaqRollBack(s, k, ctx, env.admins, env.fault).0, FaqRollBack(s, k, ctx, env.admins, env.fault).1, Stop)
  {
    assert "faq rollback " + k == "faq " + "rollback" + " " + k;
    DispatchOf(s, ctx, env, ed, "rollback", RollBack, k);
    RunRollBack(s, ctx, env, ed, k);
  }

  /** The mode table's entry for `del` runs the first-character delete as written, the whole-key one corrected. */
  lemma RunDelete(s: Store, ctx: Ctx, env: Env, cmd: string)
    ensures Run(s, Delete, cmd, ctx, env, AsWritten) ==
      Done(FaqDelAsWritten(s, cmd, ctx, env.fault).0, FaqDelAsWritten(s, cmd, ctx, env.fault).1, Stop)
    ensures Run(s, Delete, cmd, ctx, env, Corrected) == Done(FaqDel(s, cmd, ctx, env.fault).0, FaqDel(s, cmd, ctx, env.fault).1, Stop)
  {
  }

  /** `q <key>` asks for `key`. */
  lemma AskOf(s: Store, ctx: Ctx, k: string)
    requires |k| > 0 && NoSpace(k)
    ensures AskExecute(s, "q " + k, ctx) ==
      Done(s, if GetAnswer(TableOf(s, ctx.groupId), k).0 then Answered(GetAnswer(TableOf(s, ctx.groupId), k).1, k) else NotAnswered, None)
  {
    assert "q " + k == ['q'] + " " + k;
    MatchQueryComplete('q', " ", k);
  }

  /** A single word is parsed as the key of `faq del`. */
  lemma DelKey(k: string)
    requires |k| > 0 && NoSpace(k)
    ensures MatchWordSpaces(k) == Some(k)
  {
    assert k == k + "";
    MatchWordSpacesComplete(k, "");
  }

  /** `faq add <key> <answer>` on a key without an answer, then `q <key>`, gives the answer back. */
  lemma AddThenAsk(s: Store, ctx: Ctx, env: Env, ed: Edition, k: string, a: string)
    requires |k| > 0 && NoSpace(k)
    requires |a| == 0 || !IsSpace(a[0])
    requires env.fault.Healthy?
    requires !GetAnswer(TableOf(s, ctx.groupId), k).0
    ensures var r := MaintainExecute(s, "faq add " + k + " " + a, ctx, env, ed);
      && r.Done? && r.reply == Answered(a, k)
      && AskExecute(r.store, "q " + k, ctx) == Done(r.store, Answered(a, k), None)
  {
    var cmd := k + " " + a;
    assert "faq add " + k + " " + a == "faq " + "add" + " " + cmd;
    DispatchOf(s, ctx, env, ed, "add", Add, cmd);
    MatchKeyRestComplete(k, " ", a);
    var r := FaqAdd(s, cmd, ctx, env.fault);
    assert Run(s, Add, cmd, ctx, env, ed) == Done(r.0, r.1, Stop);
    assert Landed(s, r.0, ctx.groupId, k, a, "", false);
    AskOf(r.0, ctx, k);
  }

  /** As intended, `faq del <key>` on an answered key appends a tombstone; `q <key>` then finds nothing. */
  lemma DelThenAsk(s: Store, ctx: Ctx, env: Env, k: string)
    requires |k| > 0 && NoSpace(k)
    requires env.fault.Healthy?
    requires GetAnswer(TableOf(s, ctx.groupId), k).0
    ensures var r := MaintainExecute(s, "faq del " + k, ctx, env, Corrected);
      && r.Done? && r.reply == DeleteDone
      && |TableOf(r.store, ctx.groupId).records| == |TableOf(s, ctx.groupId).records| + 1
      && AskExecute(r.store, "q " + k, ctx) == Done(r.store, NotAnswered, None)
  {
    DelMessage(s, ctx, env, k);
    FaqDelRemovesKey(s, ctx, k);
    AskOf(FaqDel(s, k, ctx, env.fault).0, ctx, k);
  }

  /** The mode table's entry for `rollback` runs the rollback handler with the group's admins. */
  lemma RunRollBack(s: Store, ctx: Ctx, env: Env, ed: Edition, cmd: string)
    ensures Run(s, RollBack, cmd, ctx, env, ed) ==
      Done(FaqRollBack(s, cmd, ctx, env.admins, env.fault).0, FaqRollBack(s, cmd, ctx, env.admins, env.fault).1, Stop)
  {
  }

  /** A successful delete of an answered key is one tombstone put on the sender's table. */
  lemma DelIsPut(s: Store, ctx: Ctx, k: string)
    requires |k| > 0 && NoSpace(k)
    requires GetAnswer(TableOf(s, ctx.groupId), k).0
    ensures var r := FaqDel(s, k, ctx, Healthy);
      && r.1 == DeleteDone
      && TableOf(r.0, ctx.groupId) == Put(TableOf(s, ctx.groupId), k, "", ctx.userId, ctx.time, "", true, Healthy).0
      && r.0 - {ctx.groupId} == s - {ctx.groupId}
  {
    DelKey(k);
  }

  /** An admin's rollback of a one-word key is `rollback_answer` on the sender's table. */
  lemma RollBackIsRollback(s: Store, ctx: Ctx, admins: set<int>, k: string)
    requires |k| > 0 && NoSpace(k)
    requires ctx.userId in admins
    ensures var r := FaqRollBack(s, k, ctx, admins, Healthy);
      var (t', ok) := Rollback(TableOf(s, ctx.groupId), k, Healthy);
      && r.1 == (if ok then Ok else NoRecord(k))
      && TableOf(r.0, ctx.groupId) == t'
      && r.0 - {ctx.groupId} == s - {ctx.groupId}
  {
  }

  /** Rolling back a delete by the handlers restores the group's rows. */
  lemma RollBackUndoesDel(s: Store, ctx: Ctx, admins: set<int>, k: string)
    requires WellFormed(TableOf(s, ctx.groupId)) && Complete(TableOf(s, ctx.groupId))
    requires |k| > 0 && NoSpace(k)
    requires ctx.userId in admins
    requires GetAnswer(TableOf(s, ctx.groupId), k).0
    ensures var s1 := FaqDel(s, k, ctx, Healthy).0;
      var r := FaqRollBack(s1, k, ctx, admins, Healthy);
      && r.1 == Ok
      && TableOf(r.0, ctx.groupId).records == TableOf(s, ctx.groupId).records
      && r.0 - {ctx.groupId} == s - {ctx.groupId}
  {
    var t := TableOf(s, ctx.groupId);
    DelIsPut(s, ctx, k);
    var s1 := FaqDel(s, k, ctx, Healthy).0;
    RollBackIsRollback(s1, ctx, admins, k);
    Facts.RollbackUndoesPut(t, k, "", ctx.userId, ctx.time, "", true);
  }

  /**
   As intended, an admin's `faq rollback <key>` right after `faq del <key>`
   restores the group's rows exactly as they were before the delete.
   */
  lemma DelThenRollBack(s: Store, ctx: Ctx, env: Env, k: string)
    requires StoreWellFormed(s) && StoreComplete(s)
    requires |k| > 0 && NoSpace(k)
    requires env.fault.Healthy? && ctx.userId in env.admins
    requires GetAnswer(TableOf(s, ctx.groupId), k).0
    ensures var r := MaintainExecute(s, "faq del " + k, ctx, env, Corrected);
      && r.Done?
      && var r' := MaintainExecute(r.store, "faq rollback " + k, ctx, env, Corrected);
      && r'.Done? && r'.reply == Ok
      && TableOf(r'.store, ctx.groupId).records == TableOf(s, ctx.groupId).records
      && r'.store - {ctx.groupId} == s - {ctx.groupId}
  {
    assert WellFormed(TableOf(s, ctx.groupId)) && Complete(TableOf(s, ctx.groupId));
    RollBackUndoesDel(s, ctx, env.admins, k);
    DelMessage(s, ctx, env, k);
    RollBackMessage(FaqDel(s, k, ctx, Healthy).0, ctx, env, Corrected, k);
  }

  /**
   As written, `faq del` never touches the key it was given when that key is
   longer than one character: it reads and writes only the key's first
   character.
   */
  lemma FaqDelAsWrittenKeepsLongKeys(s: Store, ctx: Ctx, fault: Fault, k: string)
    requires |k| > 1 && NoSpace(k)
    ensures var r := FaqDelAsWritten(s, k, ctx, fault);
      GetAnswer(TableOf(r.0, ctx.groupId), k) == GetAnswer(TableOf(s, ctx.groupId), k)
  {
    DelKey(k);
    assert k[..1] != k;
  }

  /**
   As written, `faq del <key>` through the plugin's dispatch leaves the answer
   `q <key>` gives unchanged for every key longer than one character, however
   the storage statements fare.
   */
  lemma DelThenAskAsWritten(s: Store, ctx: Ctx, env: Env, k: string)
    requires |k| > 1 && NoSpace(k)
    ensures var r := MaintainExecute(s, "faq del " + k, ctx, env, AsWritten);
      && r.Done?
      && AskExecute(s, "q " + k, ctx).Done?
      && AskExecute(r.store, "q " + k, ctx).reply == AskExecute(s, "q " + k, ctx).reply
  {
    DelMessage(s, ctx, env, k);
    FaqDelAsWrittenKeepsLongKeys(s, ctx, env.fault, k);
    AskOf(s, ctx, k);
    AskOf(FaqDelAsWritten(s, k, ctx, env.fault).0, ctx, k);
  }

  /** The tombstone lands on the one-character prefix: deleting `abc` deletes `a` and leaves `abc` answered. */
  lemma FaqDelAsWrittenExample()
    ensures var ctx := Ctx(1, 7, 0, true);
      var s := map[1 := Table([Record(1, "a", "x", true, false, "", 7, 0), Record(2, "abc", "y", true, false, "", 7, 0)], 3)];
      var r := FaqDelAsWritten(s, "abc", ctx, Healthy);
      && r.1 == DeleteDone
      && GetAnswer(TableOf(r.0, 1), "abc") == (true, "y")
      && GetAnswer(TableOf(r.0, 1), "a") == (false, "")
  {
    var ctx := Ctx(1, 7, 0, true);
    var rs := [Record(1, "a", "x", true, false, "", 7, 0), Record(2, "abc", "y", true, false, "", 7, 0)];
    var s := map[1 := Table(rs, 3)];
    assert TableOf(s, 1).records == rs;
    assert Active(rs[0], "a");
    assert GetAnswer(TableOf(s, 1), "a").0;
    DelKey("abc");
    assert "abc"[..1] == "a";
    var r := FaqDelAsWritten(s, "abc", ctx, Healthy);
    assert r == Tombstone(s, "a", ctx, Healthy);
    FaqDelAsWrittenKeepsLongKeys(s, ctx, Healthy, "abc");
  }

  /**
   As intended (the corrected `FaqDel`, not the plugin's first-character
   delete), `faq del <key>` of an answered key leaves the key unanswered: it
   appends one latest, deleted row of the key with an empty answer, keeps
   every earlier row but for its `latest` flag, and touches no other group.
   */
  lemma FaqDelRemovesKey(s: Store, ctx: Ctx, k: string)
    requires |k| > 0 && NoSpace(k)
    requires GetAnswer(TableOf(s, ctx.groupId), k).0
    ensures var r := FaqDel(s, k, ctx, Healthy);
      var before := TableOf(s, ctx.groupId).records;
      var after := TableOf(r.0, ctx.groupId).records;
      && r.1 == DeleteDone && GetAnswer(TableOf(r.0, ctx.groupId), k) == (false, "")
      && |after| == |before| + 1
      && after[|before|].question == k && after[|before|].answer == ""
      && after[|before|].deleted && after[|before|].latest
      && (forall i :: 0 <= i < |before| ==> after[i].(latest := before[i].latest) == before[i])
      && r.0 - {ctx.groupId} == s - {ctx.groupId}
  {
    DelKey(k);
    DelIsPut(s, ctx, k);
  }

  /**
   A tombstoned question counts as absent. As intended (the corrected
   `FaqDel`), after `faq del <key>`, `faq edit` of the key reports it missing
   and writes nothing, while `faq add` of the key succeeds (when its
   statements do).
   */
  lemma TombstoneCountsAsAbsent(s: Store, ctx: Ctx, k: string, a: string, fault: Fault)
    requires |k| > 0 && NoSpace(k)
    requires |a| == 0 || !IsSpace(a[0])
    requires GetAnswer(TableOf(s, ctx.groupId), k).0
    ensures var s1 := FaqDel(s, k, ctx, Healthy).0;
      && FaqEdit(s1, k + " " + a, ctx, fault) == (s1, Missing(k))
      && (fault.Healthy? ==> FaqAdd(s1, k + " " + a, ctx, fault).1 == Answered(a, k))
  {
    FaqDelRemovesKey(s, ctx, k);
    MatchKeyRestComplete(k, " ", a);
  }
}
