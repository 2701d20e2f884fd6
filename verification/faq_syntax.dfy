/**
 The regular expressions of the FAQ plugins, each as a function that returns
 the captured groups, with a lemma showing that every string of the
 pattern's language is parsed into exactly its groups. Messages are taken to
 be free of newlines, so `.` matches any character and `$` is the end.
 */
module FaqSyntax {
  import opened Wrappers
  import opened Text

  /** The character `问` ("ask") that starts a query. */
  const QueryMark: char := '\U{95EE}'

  /** `^(问|q)\s+([^\s]+)$` as used by `AskFAQ`: the queried key. */
  function MatchQuery(msg: string): (r: Option<string>)
    ensures r.Some? ==>
      && |r.value| > 0 && NoSpace(r.value)
      && |msg| > 1 + |r.value|
      && (msg[0] == QueryMark || msg[0] == 'q')
      && AllSpace(msg[1..|msg| - |r.value|])
      && msg[|msg| - |r.value|..] == r.value
  {
    if |msg| == 0 || (msg[0] != QueryMark && msg[0] != 'q') then None
    else
      var rest := msg[1..];
      var n := SpaceLength(rest);
      if n == 0 || n == |rest| || !NoSpace(rest[n..]) then None
      else
        assert msg[1..|msg| - |rest[n..]|] == rest[..n];
        Some(rest[n..])
  }

  /** Every message of the query pattern yields its key. */
  lemma MatchQueryComplete(p: char, w: string, k: string)
    requires p == QueryMark || p == 'q'
    requires |w| > 0 && AllSpace(w)
    requires |k| > 0 && NoSpace(k)
    ensures MatchQuery([p] + w + k) == Some(k)
  {
    var msg := [p] + w + k;
    assert msg[1..] == w + k;
    SpaceLengthOfRun(w, k);
    assert (w + k)[|w|..] == k;
  }

  /**
   `^([^\s]+)\s*(.*)$` as used by `faq add` and `faq edit`: the longest
   leading word, and what follows it once the spaces after it are skipped.
   */
  function MatchKeyRest(cmd: string): (r: Option<(string, string)>)
    ensures r.None? <==> |cmd| == 0 || IsSpace(cmd[0])
    ensures r.Some? ==>
      var (k, v) := r.value;
      && |k| > 0 && NoSpace(k)
      && |k| + |v| <= |cmd|
      && cmd == k + cmd[|k|..|cmd| - |v|] + v
      && AllSpace(cmd[|k|..|cmd| - |v|])
      && (|k| == |cmd| || IsSpace(cmd[|k|]))
      && (|v| == 0 || !IsSpace(v[0]))
  {
    var k := TokenLength(cmd);
    if k == 0 then None
    else
      var after := cmd[k..];
      var n := SpaceLength(after);
      var v := after[n..];
      assert cmd[k..|cmd| - |v|] == after[..n];
      assert cmd == cmd[..k] + after[..n] + v;
      Some((cmd[..k], v))
  }

  /** A word, its trailing spaces and a rest not starting with a space parse back into the word and the rest. */
  lemma MatchKeyRestComplete(k: string, w: string, v: string)
    requires |k| > 0 && NoSpace(k)
    requires AllSpace(w)
    requires |w| > 0 || |v| == 0
    requires |v| == 0 || !IsSpace(v[0])
    ensures MatchKeyRest(k + w + v) == Some((k, v))
  {
    var cmd := k + w + v;
    assert cmd == k + (w + v);
    TokenLengthOfWord(k, w + v);
    assert cmd[|k|..] == w + v;
    SpaceLengthOfRun(w, v);
    assert (w + v)[|w|..] == v;
    assert cmd[..|k|] == k;
  }

  /**
   `^faq\s+([^\s]+)\s*(.*)$` as used by `MaintainFAQ`: the sub-command name and
   its argument text.
   */
  function MatchMode(msg: string): (r: Option<(string, string)>)
    ensures r.Some? ==>
      && |msg| > 3 && msg[..3] == "faq" && IsSpace(msg[3])
      && var rest := msg[3..];
      && MatchKeyRest(rest[SpaceLength(rest)..]) == r
  {
    if |msg| < 3 || msg[..3] != "faq" then None
    else
      var rest := msg[3..];
      var n := SpaceLength(rest);
      if n == 0 then None else MatchKeyRest(rest[n..])
  }

  /** Every message of the sub-command pattern yields its name and argument. */
  lemma MatchModeComplete(w: string, name: string, w': string, arg: string)
    requires |w| > 0 && AllSpace(w)
    requires |name| > 0 && NoSpace(name)
    requires AllSpace(w')
    requires |w'| > 0 || |arg| == 0
    requires |arg| == 0 || !IsSpace(arg[0])
    ensures MatchMode("faq" + w + name + w' + arg) == Some((name, arg))
  {
    var msg := "faq" + w + name + w' + arg;
    var tail := name + w' + arg;
    assert msg == "faq" + (w + tail);
    assert msg[..3] == "faq";
    assert msg[3..] == w + tail;
    SpaceLengthOfRun(w, tail);
    assert (w + tail)[|w|..] == tail;
    MatchKeyRestComplete(name, w', arg);
  }

  /** `^([^\s]+)\s+([^\s]+)$` as used by `faq cp` and `faq tag`: two words. */
  function MatchTwoWords(cmd: string): (r: Option<(string, string)>)
    ensures r.Some? ==>
      var (a, b) := r.value;
      && |a| > 0 && NoSpace(a) && |b| > 0 && NoSpace(b)
      && |a| + |b| < |cmd|
      && cmd == a + cmd[|a|..|cmd| - |b|] + b
      && AllSpace(cmd[|a|..|cmd| - |b|])
  {
    var k := TokenLength(cmd);
    if k == 0 then None
    else
      var after := cmd[k..];
      var n := SpaceLength(after);
      if n == 0 || n == |after| || !NoSpace(after[n..]) then None
      else
        var b := after[n..];
        assert cmd[k..|cmd| - |b|] == after[..n];
        assert cmd == cmd[..k] + after[..n] + b;
        Some((cmd[..k], b))
  }

  /** Two words separated by spaces parse back into the two words. */
  lemma MatchTwoWordsComplete(a: string, w: string, b: string)
    requires |a| > 0 && NoSpace(a)
    requires |w| > 0 && AllSpace(w)
    requires |b| > 0 && NoSpace(b)
    ensures MatchTwoWords(a + w + b) == Some((a, b))
  {
    var cmd := a + w + b;
    assert cmd == a + (w + b);
    TokenLengthOfWord(a, w + b);
    assert cmd[|a|..] == w + b;
    SpaceLengthOfRun(w, b);
    assert (w + b)[|w|..] == b;
    assert cmd[..|a|] == a;
  }

  /** `^([^\s]+)\s*$` as used by `faq del`: one word, optionally followed by spaces. */
  function MatchWordSpaces(cmd: string): (r: Option<string>)
    ensures r.Some? ==>
      && |r.value| > 0 && NoSpace(r.value)
      && |r.value| <= |cmd| && cmd[..|r.value|] == r.value
      && AllSpace(cmd[|r.value|..])
  {
    var k := TokenLength(cmd);
    if k == 0 || !AllSpace(cmd[k..]) then None else Some(cmd[..k])
  }

  /** A word followed by spaces parses back into the word. */
  lemma MatchWordSpacesComplete(k: string, w: string)
    requires |k| > 0 && NoSpace(k)
    requires AllSpace(w)
    ensures MatchWordSpaces(k + w) == Some(k)
  {
    TokenLengthOfWord(k, w);
    assert (k + w)[|k|..] == w;
    assert (k + w)[..|k|] == k;
  }

  /**
   `^([^\s]+)\s(.*)$` as used by `faq append`: the longest leading word and
   everything after the single space character that follows it.
   */
  function MatchAppend(cmd: string): (r: Option<(string, string)>)
    ensures r.Some? ==>
      var (k, v) := r.value;
      && |k| > 0 && NoSpace(k)
      && |k| + 1 + |v| == |cmd|
      && IsSpace(cmd[|k|])
      && cmd == k + [cmd[|k|]] + v
    ensures r.None? <==> TokenLength(cmd) == 0 || TokenLength(cmd) == |cmd|
  {
    var k := TokenLength(cmd);
    if k == 0 || k == |cmd| then None
    else
      assert cmd == cmd[..k] + [cmd[k]] + cmd[k + 1..];
      Some((cmd[..k], cmd[k + 1..]))
  }

  /** A word, one space and any text parse back into the word and exactly that text. */
  lemma MatchAppendComplete(k: string, s: char, v: string)
    requires |k| > 0 && NoSpace(k)
    requires IsSpace(s)
    ensures MatchAppend(k + [s] + v) == Some((k, v))
  {
    var cmd := k + [s] + v;
    assert cmd == k + ([s] + v);
    TokenLengthOfWord(k, [s] + v);
    assert cmd[..|k|] == k;
    assert cmd[|k| + 1..] == v;
  }

  /** `^([^\s]+)$` as used by `faq rollback` and `faq history`: exactly one word. */
  function MatchWord(cmd: string): (r: Option<string>)
    ensures r.Some? <==> |cmd| > 0 && NoSpace(cmd)
    ensures r.Some? ==> r.value == cmd
  {
    if |cmd| > 0 && NoSpace(cmd) then Some(cmd) else None
  }
}
