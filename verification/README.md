# FAQ ledger and plugin-group router, modelled in Dafny

This project models two parts of a QQ chat bot.

**The FAQ plugins** (`plugins/faq_v2.py`). Each chat group has a versioned
question-and-answer table. The table is an append-only list of rows
`(faq_seq, question, answer, latest, deleted, group_tag, modify_user_id,
modify_time)`. Three primitives read and change it:

- `update_answer` demotes the question's latest rows, then appends a new
  latest row.
- `get_answer` returns the first latest, undeleted row of the question.
- `rollback_answer` hard-deletes the question's highest-sequence row, then
  re-marks the new highest row as latest.

On top of them sit `AskFAQ` (`问 <key>` / `q <key>`) and `MaintainFAQ`. The
latter is a `faq <mode> <operand>` dispatcher over `show`/`ls`, `add`/`new`,
`edit`, `cp`, `del`, `append`, `tag`, `rollback` and `history`. It also
covers the data half of the two listings: grouping by tag, and bucketing by
pinyin initial.

**The plugin-group router** (`utils/standardPlugin.py`,
`PluginGroupManager`). It is a two-phase state machine. `judgeTrigger`
stages an admin's enable/disable toggle, or the first child plugin whose
trigger accepts the message, gated on a per-group enable flag.
`executeEvent` consumes the staged selection.

Everything is a pure function over immutable values:

- The store is `map<int, Table>`, keyed by group id. A group with no table
  reads as an empty table.
- The admin roster, the `lazy_pinyin` romanisation and the fate of the SQL
  statements come in as parameters (`FaqCommands.Env`).
- Replies are returned as a `Reply` value instead of being sent.
- The router's mutable fields are a `Router` value threaded through
  `JudgeTrigger` and `ExecuteEvent`. The `writeGlobalConfig` calls it makes
  are returned as a list of `ConfigWrite`.

Storage failures are a `Fault` parameter, matching the code's two
separately autocommitted statements:

- `Healthy`: every statement succeeds.
- `FailFirst`: the first statement fails and nothing is written.
- `FailSecond`: the demotion (or hard delete) is committed, and the insert
  (or re-mark) fails.

Two invariants on a table drive the proofs:

- `FaqLedger.WellFormed`: keys increase, and every latest row is the
  highest-sequence row of its question, so at most one row per question is
  latest. Every operation keeps it, whatever the fault.
- `FaqLedger.Complete`: every question that has rows has its newest row
  latest. It survives every operation whose statements all succeed.

Three behaviours of the code are easy to miss:

- `update_answer` is not atomic. Its demotion and its insert commit
  separately. So a put that fails after the demotion leaves the question
  with no latest row: the table keeps `WellFormed` but loses `Complete`,
  and the question reads as unanswered.
- `PluginGroupManager.executeEvent` clears the staged selection only when
  the staged child returns. A child that raises stays staged.
- The operand of a `faq` command is not trimmed. The mode pattern strips
  only the whitespace before it. Each handler's own pattern then decides
  what else to strip: `faq append` strips exactly one whitespace character.

The mode table of `MaintainFAQ` maps `del` to a handler that acts on the
key's first character only (see Findings). `FaqCommands.Run` and
`FaqCommands.MaintainExecute` take an `Edition`. `AsWritten` is the
plugin's own table, and `Corrected` swaps in the whole-key delete. The
end-to-end lemmas about deleting say which edition they use.

Files:

- `wrappers.dfy`: `Option`.
- `text.dfy`: Python's `\s` set, the greedy token scans, ASCII `lower()`,
  code-point string order and `'/'.join`.
- `sorting.dfy`: the sort used for `sorted` and `order by`.
- `bot_event.dfy`: the fields of the message event used here.
- `faq_ledger.dfy`: the table and its primitives.
- `faq_ledger_facts.dfy`: the invariants, round trips and frame lemmas.
- `faq_syntax.dfy`: the regular expressions.
- `faq_listing.dfy`: the two listings.
- `faq_commands.dfy`: the handlers, the dispatch table and the end-to-end
  properties.
- `plugin_group.dfy`: the router.

## Model

| member | source | states |
|---|---|---|
| FaqLedger.Put | plugins/faq_v2.py:121-160 | true exactly when both statements commit. A failed first statement changes nothing. Otherwise every old row keeps all fields but `latest`, which it loses exactly when it belongs to the question. On success exactly one row is appended: latest, with the next key, the given question, answer, tag, deleted flag, editor and time. It is then the only latest row of its question. |
| FaqLedgerFacts.PutPreservesWellFormed | plugins/faq_v2.py:126-150 | whatever the fault, a put keeps keys increasing and leaves at most one latest row per question, which is the newest |
| FaqLedgerFacts.PutPreservesComplete | plugins/faq_v2.py:126-150 | a put whose statements all succeed leaves every question that has rows with its newest row latest |
| FaqLedgerFacts.PutThenGet | plugins/faq_v2.py:70-86 | after a successful put, `get_answer` of the question returns the new answer, or not-found for a tombstone, from any starting table |
| FaqLedgerFacts.PutKeepsOtherQuestions | plugins/faq_v2.py:126-150 | a put of one question, whatever the fault, leaves the rows and the answer of every other question unchanged |
| FaqLedger.GetAnswer | plugins/faq_v2.py:70-86 | found exactly when some row of the question is latest and undeleted. The answer is that of such a row, and not-found carries `''`. |
| FaqLedgerFacts.GetAnswerIff | plugins/faq_v2.py:70-86 | in a well-formed table, `(true, a)` is returned exactly when a latest undeleted row of the question has answer `a` |
| FaqLedgerFacts.LatestIsUniqueAndNewest | plugins/faq_v2.py:70-86 | in a well-formed table a question's latest row is its only latest row, and no row of the question is newer |
| FaqLedger.MaxSeq | plugins/faq_v2.py:92-97 | `select max(faq_seq)`: NULL exactly when the question has no rows, otherwise a key of one of its rows that is at least every key of its rows |
| FaqLedger.RemoveSeq | plugins/faq_v2.py:99-101 | the rows that remain are exactly those with a different key |
| FaqLedger.Rollback | plugins/faq_v2.py:87-120 | true exactly when the question has rows and both statements commit. A question without rows, or a failed first statement, changes nothing. The key counter is untouched and no row is added. |
| FaqLedgerFacts.RollbackRemovesNewest | plugins/faq_v2.py:87-120 | in a well-formed table, a successful rollback removes exactly the question's newest row and marks the question's new newest row, if any, latest |
| FaqLedgerFacts.FailedRollbackRemovesNewest | plugins/faq_v2.py:99-113 | when the re-mark fails, the hard delete has already removed exactly the newest row of the question |
| FaqLedgerFacts.RollbackPreservesWellFormed | plugins/faq_v2.py:87-120 | whatever the fault, a rollback keeps keys increasing and at most one latest row per question |
| FaqLedgerFacts.RollbackPreservesComplete | plugins/faq_v2.py:87-120 | a rollback whose statements all succeed leaves every question that has rows with its newest row latest |
| FaqLedgerFacts.RollbackKeepsOtherQuestions | plugins/faq_v2.py:87-120 | a rollback, whatever the fault, leaves the rows and the answer of every other question unchanged |
| FaqLedgerFacts.RollbackUndoesPut | plugins/faq_v2.py:87-160 | on a well-formed, complete table, rolling back a successful put restores the rows exactly; only the auto-increment counter stays advanced |
| FaqLedgerFacts.RollbackResurrectsSoftDelete | plugins/faq_v2.py:87-160 | rolling back a tombstone brings the deleted answer back |
| FaqLedgerFacts.RelatchUndoesDemote | plugins/faq_v2.py:102-136 | on a complete table, re-marking the newest row undoes the demotion of a put |
| FaqLedgerFacts.CompleteHasLatest | plugins/faq_v2.py:87-120 | in a well-formed, complete table every question that has rows has a latest row |
| FaqLedger.History | plugins/faq_v2.py:466-470 | at most 20 rows, exactly `min(rows of the question, 20)` of them, all of the question and from the table, in descending key order |
| FaqLedger.HistoryKeepsNewest | plugins/faq_v2.py:466-470 | a row of the question left out of the window is no newer than any row shown |
| FaqLedgerFacts.HistoryIsNewestRows | plugins/faq_v2.py:466-470 | in key order, the history is the question's rows reversed, cut to 20 |
| FaqLedgerFacts.HistoryAfterPut | plugins/faq_v2.py:126-150 | after a successful put, the history starts with the new row, followed by the previous history, demoted |
| FaqLedgerFacts.ActiveQuestionsMatchGet | plugins/faq_v2.py:230-233 | in a well-formed table the listed questions are exactly those `get_answer` finds, each listed once |
| FaqLedgerFacts.ListedIffAnswered | plugins/faq_v2.py:230-233 | a question is listed exactly when `get_answer` finds it |
| FaqLedgerFacts.ActiveTaggedInTableOrder | plugins/faq_v2.py:238-240 | the tag listing follows the table: two stretches of rows list as their listings one after the other, and a single row gives its `(group_tag, question)` pair exactly when it is latest and undeleted |
| FaqLedgerFacts.ActiveQuestionsInTableOrder | plugins/faq_v2.py:230-233 | the question listing follows the table in the same way, one question per latest undeleted row |
| FaqSyntax.MatchQuery | plugins/faq_v2.py:163 | a match is `问` or `q`, a non-empty run of whitespace, then a non-empty key without whitespace that ends the message |
| FaqSyntax.MatchQueryComplete | plugins/faq_v2.py:163 | every message of that shape matches, with exactly its key |
| FaqSyntax.MatchMode | plugins/faq_v2.py:189 | a match is `faq`, whitespace, then a mode name and operand as `^([^\s]+)\s*(.*)$` splits the rest |
| FaqSyntax.MatchModeComplete | plugins/faq_v2.py:189 | `faq`, whitespace, a name, whitespace and an operand that does not start with whitespace parse to that name and operand |
| FaqSyntax.MatchKeyRest | plugins/faq_v2.py:255 | fails exactly on an empty operand or one that starts with whitespace. Otherwise it splits into a whitespace-free key, a whitespace run and a rest that does not start with whitespace. |
| FaqSyntax.MatchKeyRestComplete | plugins/faq_v2.py:274 | a key, whitespace and an answer parse back to that key and answer |
| FaqSyntax.MatchTwoWords | plugins/faq_v2.py:292 | a match is two whitespace-free words separated by whitespace, making up the whole operand |
| FaqSyntax.MatchTwoWordsComplete | plugins/faq_v2.py:347 | two words separated by whitespace parse back to those words |
| FaqSyntax.MatchWordSpaces | plugins/faq_v2.py:310 | a match is a whitespace-free word followed only by whitespace |
| FaqSyntax.MatchWordSpacesComplete | plugins/faq_v2.py:310 | a word followed by whitespace parses back to that word |
| FaqSyntax.MatchAppend | plugins/faq_v2.py:328 | a match is a key, exactly one whitespace character, then the rest verbatim. It fails exactly when the operand starts with whitespace or has none after the key. |
| FaqSyntax.MatchAppendComplete | plugins/faq_v2.py:328 | a key, one whitespace character and any text parse back to that key and text |
| FaqSyntax.MatchWord | plugins/faq_v2.py:366 | matches exactly a non-empty operand without whitespace, returning it whole |
| FaqCommands.ModeOf | plugins/faq_v2.py:190-202 | a mode is found exactly for the eleven names of the mode table |
| FaqCommands.ModeTable | plugins/faq_v2.py:190-202 | each handler is reached by its own name, `ls` reaches `show` and `new` reaches `add`, and no other name reaches a handler |
| FaqCommands.Save | plugins/faq_v2.py:121-160 | `update_answer` on the sender's group: success exactly when the statements commit. It touches no other group or question and adds at most one row. A failed first statement writes nothing. A success lands the row and makes the question read as written. It keeps both invariants. |
| FaqCommands.Unwind | plugins/faq_v2.py:87-120 | `rollback_answer` on one group: success exactly when the question has rows and the statements commit. It touches no other group or question and keeps both invariants. |
| FaqCommands.FaqAdd | plugins/faq_v2.py:253-270 | a usage reply and no write for a bad operand. `Exists` and no write when the key has an answer. Otherwise one put of the answer, untagged, replying with the answer on success and `UpdateFailed` on failure. |
| FaqCommands.FaqEdit | plugins/faq_v2.py:272-289 | a usage reply and no write for a bad operand. `Missing` and no write when the key has no answer. Otherwise one put of the new answer, untagged. |
| FaqCommands.FaqCp | plugins/faq_v2.py:290-307 | `Missing` and no write when the source has no answer. Otherwise one untagged put of the source's answer under the destination, whether or not the destination exists. The source keeps its answer when the statements succeed or the two keys differ: `faq cp k k` whose insert fails leaves `k` demoted and unanswered. |
| FaqCommands.FaqDelAsWritten | plugins/faq_v2.py:308-325 | as written, the lookup and the tombstone use only the first character of the parsed key |
| FaqCommands.FaqDel | plugins/faq_v2.py:308-325 | with the key taken whole: `Missing` and no write when the key has no answer, otherwise one tombstone put (empty answer, deleted) |
| FaqCommands.FaqDelRemovesKey | plugins/faq_v2.py:308-325 | as intended (corrected `FaqDel`, not the plugin's first-character delete), deleting an answered key replies done and leaves the key unanswered. It appends exactly one row: a latest, deleted tombstone of the key with an empty answer. Every earlier row survives with all fields but `latest`, and no other group changes. |
| FaqCommands.TombstoneCountsAsAbsent | plugins/faq_v2.py:253-289 | as intended (corrected `FaqDel`), after the key's delete, `edit` of the key reports it missing and writes nothing, while `add` of the key succeeds |
| FaqCommands.FaqAppend | plugins/faq_v2.py:326-344 | `Missing` and no write when the key has no answer. Otherwise one untagged put of the old answer immediately followed by the operand text, with no separator. |
| FaqCommands.FaqTag | plugins/faq_v2.py:345-362 | `Missing` and no write when the key has no answer. Otherwise one put of the unchanged answer carrying the new tag. |
| FaqCommands.FaqRollBack | plugins/faq_v2.py:363-379 | syntax is checked first and admin rights second, and a failed check writes nothing. An admin's rollback replies `Ok` exactly when the key has rows and the statements commit, and leaves other questions and groups alone. |
| FaqCommands.FaqHistory | plugins/faq_v2.py:380-394 | syntax is checked first and admin rights second. An admin gets at most 20 rows of the key, all from the group's table, newest first. |
| FaqCommands.FaqShow | plugins/faq_v2.py:224-251 | `''` or `-1` lists every answered question in the bucket of its pinyin initial. Each bucket is in sort-key order and holds only answered questions, and the bucket sizes add up to the number of answered questions. It raises when a question has no initial. `-2` groups the answered questions by tag, in the order `TagsInOrder` gives. Anything else replies with usage. |
| FaqCommands.Run | plugins/faq_v2.py:190-211 | in either edition, every handler leaves other groups alone and adds at most one row. Only `show` raises, and `show` and `history` never write. |
| FaqCommands.RunDelete | plugins/faq_v2.py:200 | the `del` entry runs the first-character delete as written and the whole-key delete as corrected |
| FaqCommands.MaintainExecute | plugins/faq_v2.py:205-211 | in either edition, an unparsable message raises, an unknown mode gets the usage hint and changes nothing, and any handled message adds at most one row to the sender's group. Every message that does not raise returns `"OK"`, unknown modes included, which stops the dispatch. |
| FaqCommands.MaintainPreservesWellFormed | plugins/faq_v2.py:205-211 | in either edition, every `faq` command keeps every table well formed, whatever its statements do |
| FaqCommands.MaintainPreservesComplete | plugins/faq_v2.py:205-211 | in either edition, every `faq` command whose statements all succeed keeps every table complete |
| FaqCommands.AskExecute | plugins/faq_v2.py:166-174 | an unparsable message raises. Otherwise the store is untouched, the reply is the answer of a latest undeleted row of the key, or not-found exactly when there is none, and the returned value is `None`, so the dispatch goes on to the following plugins. |
| FaqCommands.AskTrigger | plugins/faq_v2.py:164-174 | an accepted message is a group message, and `executeEvent` then never raises and returns `None`, whatever the store. A rejected group message would make `executeEvent` raise. |
| FaqCommands.MaintainTrigger | plugins/faq_v2.py:203-211 | an accepted message is a group message, and `executeEvent` then raises only in `faq show`/`faq ls` and otherwise returns `"OK"`, in any store, environment and edition. A rejected group message would make `executeEvent` raise. |
| FaqCommands.DispatchOf | plugins/faq_v2.py:205-208 | `faq <name> <operand>` runs the handler of `name` on exactly that operand |
| FaqCommands.AddThenAsk | plugins/faq_v2.py:166-174 | `faq add k a` on an unanswered key, then `q k`, answers `a` |
| FaqCommands.DelThenAskAsWritten | plugins/faq_v2.py:308-325 | as written, `faq del k` through the plugin's dispatch never changes what `q k` answers for a key longer than one character, whatever the storage statements do |
| FaqCommands.DelThenAsk | plugins/faq_v2.py:308-325 | as intended (corrected edition), `faq del k` on an answered key grows the table by one row, and `q k` then finds nothing |
| FaqCommands.DelThenRollBack | plugins/faq_v2.py:363-379 | as intended (corrected edition), on well-formed, complete tables an admin's `faq rollback k` right after `faq del k` replies `Ok` and restores the group's rows exactly, leaving other groups alone |
| FaqCommands.FaqDelAsWrittenKeepsLongKeys | plugins/faq_v2.py:316 | as written, `faq del` of a key longer than one character never changes that key's answer |
| FaqCommands.FaqDelAsWrittenExample | plugins/faq_v2.py:316 | as written, `faq del abc` tombstones `a` and leaves `abc` answered |
| FaqListing.TagsInOrder | plugins/faq_v2.py:241-246 | every tag that occurs in the rows, each listed exactly once, and no other, in order of first appearance: every row with a later-listed tag comes after some row with an earlier-listed one |
| FaqListing.GroupByTagSpec | plugins/faq_v2.py:241-246 | the dictionary built by the loop has one group per distinct tag, in the order `TagsInOrder` lists them, each holding exactly that tag's questions in row order |
| FaqListing.SortByPinyin | plugins/faq_v2.py:399 | `sorted(…, key=…)` returns a permutation of the questions in sort-key order |
| FaqListing.PinyinOrderIsTotalOrder | plugins/faq_v2.py:399 | comparing sort keys is a total, transitive order |
| FaqListing.BucketOf | plugins/faq_v2.py:402-417 | letters go to the bucket whose name contains them, digits to `0-9`, and everything else to `#` |
| FaqListing.BucketLoop | plugins/faq_v2.py:400-417 | the loop fills seven buckets, each with exactly the questions whose initial belongs there, in input order |
| FaqListing.BucketsPartition | plugins/faq_v2.py:400-417 | the bucket sizes add up to the number of questions, so no question is lost or repeated |
| FaqListing.InBucketOfInitial | plugins/faq_v2.py:401-417 | every question lands in the bucket of its initial |
| FaqListing.InBucketSorted | plugins/faq_v2.py:399-417 | from sorted input, every bucket is in sort-key order and holds only input questions |
| FaqListing.PinyinListing | plugins/faq_v2.py:399-417 | succeeds exactly when every question has an initial, giving seven buckets |
| FaqListing.PinyinListingSpec | plugins/faq_v2.py:399-417 | the listing puts every question in the bucket of its initial, keeps every bucket in sort-key order and free of anything but the questions, and the bucket sizes add up to the number of questions |
| PluginGroup.QueryEnabled | utils/standardPlugin.py:126-130 | a known group's stored flag with no change and no write. An unseen group is recorded as disabled, with one config write, and reads as disabled. |
| PluginGroup.QueryEnabledSettles | utils/standardPlugin.py:126-130 | a second query of the same group gives the same answer and writes nothing |
| PluginGroup.FirstMatch | utils/standardPlugin.py:98-102 | the index of the first child, in list order, whose trigger accepts the message; none exactly when no child accepts it |
| PluginGroup.JudgeTrigger | utils/standardPlugin.py:87-102 | an admin's exact toggle is staged whatever the flag, with no write. Any other message triggers exactly when the group is enabled (an unseen group counts as disabled) and some child accepts it, and then stages the first accepting child. An unseen group is recorded as disabled with one `Register` write, and nothing else is written. When nothing triggers, the staged selection is left as it was. |
| PluginGroup.TogglesDiffer | utils/standardPlugin.py:90-95 | the enable and disable commands of a group never coincide |
| PluginGroup.DisabledIgnoresChildren | utils/standardPlugin.py:96-97 | in a disabled group a non-toggle message triggers nothing and changes nothing, whatever the children are |
| PluginGroup.NonAdminToggleFallsThrough | utils/standardPlugin.py:90-102 | a non-admin never stages a toggle, and triggers exactly when the group is known and enabled and some child accepts the text |
| PluginGroup.EnabledStagesFirstChild | utils/standardPlugin.py:98-102 | in an enabled group the first accepting child is staged and nothing is written |
| PluginGroup.ExecuteEvent | utils/standardPlugin.py:103-130 | nothing staged: `None` and no change. A staged toggle is cleared, sets the flag, touches no other group and returns `OK`. For a known group it writes the flag only when it changes. For an unseen group it first writes the `Register` record, then the flag if the request differs from the default. A staged child that returns is cleared and its result passed on. One that raises gives `None` and stays staged. |
| PluginGroup.ToggleThenQuery | utils/standardPlugin.py:90-115 | after an admin's toggle is triggered and executed, `queryEnabled` reads the requested value without writing |
| PluginGroup.ToggleIdempotent | utils/standardPlugin.py:107-115 | repeating a toggle already in effect writes nothing and changes no flag |
| PluginGroup.CheckGroupInfo | utils/standardPlugin.py:64-85 | a missing `name` becomes the group name, and a missing `description` or `commandDescription` becomes the children's entries joined by `/`. Existing entries stay, `usePlace` becomes `['group']`, and nothing else is added. |
| PluginGroup.CheckGroupInfoIdempotent | utils/standardPlugin.py:64-85 | checking the info a second time changes nothing |
| Text.DropLastSuffixEachIsJoin | utils/standardPlugin.py:69-81 | appending the separator after every entry and then dropping the last character gives the entries joined by the separator |
| PluginGroup.NewManagerAsWritten | utils/standardPlugin.py:55-62 | as written, a manager built without `groupInfo` checks and keeps the one shared default dictionary |
| PluginGroup.SharedDefaultLeaks | utils/standardPlugin.py:55 | as written, the second manager built without `groupInfo` reports the first one's name |
| PluginGroup.NewManager | utils/standardPlugin.py:55-62 | as intended, the selection starts empty, the flags are the stored ones, and a manager without `groupInfo` has exactly the four checked entries, built from its own name and children |
| PluginGroup.FreshDefaultsAreIndependent | utils/standardPlugin.py:55-62 | as intended, managers built one after another without `groupInfo` each report their own name |

## Left out

- MySQL plumbing is not modelled: connections, SQL text, `escape_string`,
  table and database creation, column length limits and collation. A group
  without a table reads as an empty table. Questions compare by exact
  equality, not by the case-insensitive collation of the table.
- Failures of `get_answer` and of the history query are not modelled. Only
  `update_answer` and `rollback_answer` can fail, through the `Fault`
  parameter.
- Concurrency is not modelled. Each operation is one sequential step, the
  two autocommitted statements included. `readyPlugin` is a value threaded
  through the calls, not a shared field.
- `update_answer` takes the group id from two places: its parameter and the
  event. Every caller passes the same group, so the model uses one group id
  for both statements.
- Image rendering, fonts, file paths, `send`, CQ reply formatting, the
  `HelpFAQ` text, `getPluginInfo` dictionaries and timestamp conversion are
  not modelled. Replies are values, and the event time is stored as given.
- `lazy_pinyin` is a parameter `string -> string` standing for the first
  syllable it returns. `lower()` is modelled for ASCII letters only.
- Messages are assumed to contain no newline. `\s` is Python's whitespace
  set for `str`.
- `getGroupAdmins`, `readGlobalConfig` and `writeGlobalConfig` are
  parameters or returned write lists, not calls.
- The `warning` logged by `_checkGroupInfo` when a child cannot be used in
  groups has no effect on the result, and is left out.
- FaqListing.SortByPinyin: the contract states a permutation in sort-key
  order. It does not state that `sorted` is stable. Questions with equal
  sort keys may appear in either order, and the bucket contents are stated
  up to that order.
- FaqListing.GroupByTag: its own contract states only that it is empty
  exactly for no rows. The full grouping property is
  `FaqListing.GroupByTagSpec`.
- The two listing queries of `faq show` have no `order by`, so MySQL may
  return their rows in any order. The model assumes primary-key order. The
  tag order of `faq show -2` and the input order of the pinyin sort
  depend on this assumption.
- FaqCommands.Run: with `Corrected` it does not compute what the plugin
  does for `faq del` on keys longer than one character. `AsWritten` is the
  plugin's behaviour. `DelThenAsk`, `DelThenRollBack`, `FaqDelRemovesKey`
  and `TombstoneCountsAsAbsent` state the intended behaviour only.
- PluginGroup.ExecuteEvent: it requires that a staged child index is within
  the child list. The code stages an object reference, which is always a
  child.
- The child plugins' own behaviour is a parameter. Each child is a trigger
  function and an execution outcome.

## Findings

| source | as written | input that shows it | evidently intended | confidence | as-written member | corrected member |
|---|---|---|---|---|---|---|
| plugins/faq_v2.py:316 | the handler indexes the parsed key once more, so the lookup and the tombstone use only its first character | `faq del abc` in a group where `a` and `abc` both have answers: `a` is deleted and `abc` keeps its answer | the whole key is looked up and tombstoned, as `faqRollBack` does at line 374 | high; not executed | FaqCommands.FaqDelAsWrittenExample | FaqCommands.FaqDelRemovesKey |
| utils/standardPlugin.py:55 | the default `groupInfo` dictionary is created once and shared by every manager built without one, and `_checkGroupInfo` fills it in place | build a manager named `alpha` and then one named `beta`, both without `groupInfo`: `beta` reports the name `alpha` | each manager built without `groupInfo` starts from a fresh empty dictionary | high; not executed | PluginGroup.SharedDefaultLeaks | PluginGroup.FreshDefaultsAreIndependent |
