/**
 `PluginGroupManager`: one plugin that fronts a list of child plugins, gates
 them on a per-chat-group enable flag, and lets group admins switch the flag
 with `-grpcfg enable <name>` / `-grpcfg disable <name>`. Triggering stages a
 selection; executing consumes it. The manager's state is threaded through
 the functions as a value, and the configuration writes it makes are returned
 as a list.
 */
module PluginGroup {
  import opened Wrappers
  import opened Text
  import opened BotEvent

  // ---------------------------------------------------------------- plugins and state

  /** What a plugin's `executeEvent` does: return `None` or a string such as `"OK"`, or raise. */
  datatype Exec = Returned(result: Option<string>) | Threw

  /** The `getPluginInfo()` entries the manager reads from its children. */
  datatype ChildInfo = ChildInfo(description: string, commandDescription: string, usePlace: seq<string>)

  /** A child plugin: its trigger test, its execution, and its info. */
  datatype Plugin = Plugin(trigger: (string, Ctx) -> bool, execute: (string, Ctx) -> Exec, info: ChildInfo)

  /** `readyPlugin`: nothing, a staged toggle, or the index of a staged child. */
  datatype Ready = Idle | StagedEnable | StagedDisable | StagedChild(index: nat)

  /** The manager's mutable part: the staged selection and `enabledDict`. */
  datatype Router = Router(ready: Ready, enabled: map<int, bool>)

  /** A value of the group-info dictionary. */
  datatype InfoValue = Str(s: string) | Strs(items: seq<string>) | Other

  /** The manager's fixed part: children, feature-group name and info dictionary. */
  datatype Manager = Manager(plugins: seq<Plugin>, groupName: string, groupInfo: map<string, InfoValue>)

  /** A `writeGlobalConfig` call: the first-seen record of a chat group, or a new flag value. */
  datatype ConfigWrite =
    | Register(groupId: int, key: string, enable: bool)
    | SetFlag(groupId: int, key: string, enable: bool)

  /** `defaultEnabled`: feature groups start disabled. */
  const DefaultEnabled := false

  /** A staged child is one of the manager's children. */
  predicate Valid(m: Manager, st: Router) {
    st.ready.StagedChild? ==> st.ready.index < |m.plugins|
  }

  // ---------------------------------------------------------------- queryEnabled

  /**
   `queryEnabled(groupId)`: the stored flag of a known chat group; an unseen
   one is recorded with the default, which is returned.
   */
  function QueryEnabled(m: Manager, st: Router, g: int): (r: (bool, Router, seq<ConfigWrite>))
    ensures r.1.ready == st.ready
    ensures g in r.1.enabled && r.1.enabled[g] == r.0
    ensures g in st.enabled ==> r.0 == st.enabled[g] && r.1 == st && r.2 == []
    ensures g !in st.enabled ==>
      && r.0 == DefaultEnabled
      && r.1.enabled == st.enabled[g := DefaultEnabled]
      && r.2 == [Register(g, m.groupName, DefaultEnabled)]
  {
    if g in st.enabled then (st.enabled[g], st, [])
    else (DefaultEnabled, st.(enabled := st.enabled[g := DefaultEnabled]), [Register(g, m.groupName, DefaultEnabled)])
  }

  /** A second query of the same chat group gives the same answer and changes and writes nothing. */
  lemma QueryEnabledSettles(m: Manager, st: Router, g: int)
    ensures var (v, st', _) := QueryEnabled(m, st, g);
      QueryEnabled(m, st', g) == (v, st', [])
  {
  }

  // ---------------------------------------------------------------- judgeTrigger

  /** The first child, from index `i` on, whose trigger accepts the message. */
  function FirstMatchFrom(plugins: seq<Plugin>, msg: string, ctx: Ctx, i: nat): (r: Option<nat>)
    requires i <= |plugins|
    ensures r.Some? ==> i <= r.value < |plugins| && plugins[r.value].trigger(msg, ctx)
    ensures r.Some? ==> forall j :: i <= j < r.value ==> !plugins[j].trigger(msg, ctx)
    ensures r.None? ==> forall j :: i <= j < |plugins| ==> !plugins[j].trigger(msg, ctx)
    decreases |plugins| - i
  {
    if i == |plugins| then None
    else if plugins[i].trigger(msg, ctx) then Some(i)
    else FirstMatchFrom(plugins, msg, ctx, i + 1)
  }

  /** The first child, in list order, whose trigger accepts the message. */
  function FirstMatch(plugins: seq<Plugin>, msg: string, ctx: Ctx): (r: Option<nat>)
    ensures r.Some? ==> r.value < |plugins| && plugins[r.value].trigger(msg, ctx)
    ensures r.Some? ==> forall j :: 0 <= j < r.value ==> !plugins[j].trigger(msg, ctx)
    ensures r.None? <==> forall j :: 0 <= j < |plugins| ==> !plugins[j].trigger(msg, ctx)
  {
    FirstMatchFrom(plugins, msg, ctx, 0)
  }

  /** The exact admin command that switches this feature group on. */
  function EnableCommand(m: Manager): string {
    "-grpcfg enable " + m.groupName
  }

  /** The exact admin command that switches this feature group off. */
  function DisableCommand(m: Manager): string {
    "-grpcfg disable " + m.groupName
  }

  /** The message is an admin's toggle command for this manager. */
  predicate IsToggle(m: Manager, msg: string, ctx: Ctx, admins: set<int>) {
    ctx.userId in admins && (msg == EnableCommand(m) || msg == DisableCommand(m))
  }

  /**
   `judgeTrigger`: an admin's exact toggle command is staged whatever the
   flag; otherwise a disabled chat group triggers nothing, and an enabled one
   stages the first child whose trigger accepts the message. An unseen chat
   group is first recorded as disabled. When nothing triggers, the staged
   selection is left as it was.
   */
  function JudgeTrigger(m: Manager, st: Router, msg: string, ctx: Ctx, admins: set<int>): (r: (bool, Router, seq<ConfigWrite>))
    ensures ctx.userId in admins && msg == EnableCommand(m) ==> r == (true, st.(ready := StagedEnable), [])
    ensures ctx.userId in admins && msg == DisableCommand(m) ==> r == (true, st.(ready := StagedDisable), [])
    ensures Valid(m, st) ==> Valid(m, r.1)
    ensures !r.0 ==> r.1.ready == st.ready
    ensures !IsToggle(m, msg, ctx, admins) ==>
      var g := ctx.groupId;
      var on := if g in st.enabled then st.enabled[g] else DefaultEnabled;
      && (r.0 <==> on && exists i :: 0 <= i < |m.plugins| && m.plugins[i].trigger(msg, ctx))
      && (r.0 ==>
            && r.1.ready.StagedChild?
            && var i := r.1.ready.index;
            && i < |m.plugins| && m.plugins[i].trigger(msg, ctx)
            && forall j :: 0 <= j < i ==> !m.plugins[j].trigger(msg, ctx))
      && r.1.enabled == (if g in st.enabled then st.enabled else st.enabled[g := DefaultEnabled])
      && r.2 == (if g in st.enabled then [] else [Register(g, m.groupName, DefaultEnabled)])
  {
    if msg == EnableCommand(m) && ctx.userId in admins then (true, st.(ready := StagedEnable), [])
    else if msg == DisableCommand(m) && ctx.userId in admins then (true, st.(ready := StagedDisable), [])
    else
      var (on, st1, writes) := QueryEnabled(m, st, ctx.groupId);
      if !on then (false, st1, writes)
      else
        match FirstMatch(m.plugins, msg, ctx)
        case None => (false, st1, writes)
        case Some(i) => (true, st1.(ready := StagedChild(i)), writes)
  }

  /** The two toggle commands of a manager differ, so at most one of them is staged. */
  lemma TogglesDiffer(m: Manager)
    ensures EnableCommand(m) != DisableCommand(m)
  {
    assert EnableCommand(m)[8] == 'e' && DisableCommand(m)[8] == 'd';
  }

  /**
   In a disabled chat group, a message that is not an admin's toggle
   triggers nothing, whatever the children are: their triggers are not
   consulted.
   */
  lemma DisabledIgnoresChildren(m: Manager, st: Router, msg: string, ctx: Ctx, admins: set<int>, children: seq<Plugin>)
    requires ctx.groupId in st.enabled && !st.enabled[ctx.groupId]
    requires ctx.userId !in admins || (msg != EnableCommand(m) && msg != DisableCommand(m))
    ensures JudgeTrigger(m, st, msg, ctx, admins) == (false, st, [])
    ensures JudgeTrigger(m.(plugins := children), st, msg, ctx, admins) == (false, st, [])
  {
  }

  /**
   A non-admin's toggle command is an ordinary message: a non-admin never
   stages a toggle, and triggers exactly when the chat group is enabled and
   some child accepts the text.
   */
  lemma NonAdminToggleFallsThrough(m: Manager, st: Router, msg: string, ctx: Ctx, admins: set<int>)
    requires ctx.userId !in admins
    ensures var r := JudgeTrigger(m, st, msg, ctx, admins);
      && (r.1.ready.StagedEnable? || r.1.ready.StagedDisable? ==> !r.0 && r.1.ready == st.ready)
      && (r.0 <==>
            && ctx.groupId in st.enabled && st.enabled[ctx.groupId]
            && exists i :: 0 <= i < |m.plugins| && m.plugins[i].trigger(msg, ctx))
  {
  }

  /** In an enabled chat group, a message some child accepts stages the first such child. */
  lemma EnabledStagesFirstChild(m: Manager, st: Router, msg: string, ctx: Ctx, admins: set<int>, i: nat)
    requires ctx.groupId in st.enabled && st.enabled[ctx.groupId]
    requires ctx.userId !in admins || (msg != EnableCommand(m) && msg != DisableCommand(m))
    requires i < |m.plugins| && m.plugins[i].trigger(msg, ctx)
    requires forall j :: 0 <= j < i ==> !m.plugins[j].trigger(msg, ctx)
    ensures JudgeTrigger(m, st, msg, ctx, admins) == (true, st.(ready := StagedChild(i)), [])
  {
    var r := FirstMatch(m.plugins, msg, ctx);
    assert r.Some?;
    assert r.value == i by {
      if r.value < i {
      } else if r.value > i {
      }
    }
  }

  // ---------------------------------------------------------------- executeEvent

  /**
   `executeEvent`: nothing staged returns `None` and changes nothing; a staged
   toggle is cleared, sets the flag (writing it only if it changes) and
   returns `"OK"`; a staged child runs, and on return the selection is
   cleared and its result passed on, while on an exception `None` is
   returned and the child stays staged.
   */
  function ExecuteEvent(m: Manager, st: Router, msg: string, ctx: Ctx): (r: (Option<string>, Router, seq<ConfigWrite>))
    requires Valid(m, st)
    ensures Valid(m, r.1)
    ensures st.ready.Idle? ==> r == (None, st, [])
    ensures st.ready.StagedEnable? || st.ready.StagedDisable? ==>
      var want := st.ready.StagedEnable?;
      && r.0 == Some("OK")
      && r.1.ready.Idle?
      && ctx.groupId in r.1.enabled && r.1.enabled[ctx.groupId] == want
      && (forall g :: g != ctx.groupId ==> (g in r.1.enabled <==> g in st.enabled))
      && (forall g :: g != ctx.groupId && g in st.enabled ==> r.1.enabled[g] == st.enabled[g])
      && (ctx.groupId in st.enabled && st.enabled[ctx.groupId] == want ==> r.2 == [])
      && (ctx.groupId in st.enabled && st.enabled[ctx.groupId] != want ==>
            r.2 == [SetFlag(ctx.groupId, m.groupName + ".enable", want)])
      && (ctx.groupId !in st.enabled ==>
            r.2 == [Register(ctx.groupId, m.groupName, DefaultEnabled)]
                   + (if want != DefaultEnabled then [SetFlag(ctx.groupId, m.groupName + ".enable", want)] else []))
    ensures st.ready.StagedChild? ==>
      var p := m.plugins[st.ready.index];
      && r.2 == []
      && r.1.enabled == st.enabled
      && (p.execute(msg, ctx).Returned? ==> r.0 == p.execute(msg, ctx).result && r.1.ready.Idle?)
      && (p.execute(msg, ctx).Threw? ==> r.0 == None && r.1 == st)
  {
    match st.ready
    case Idle => (None, st, [])
    case StagedChild(i) =>
      (match m.plugins[i].execute(msg, ctx)
       case Returned(result) => (result, st.(ready := Idle), [])
       case Threw => (None, st, []))
    case _ =>
      var want := st.ready.StagedEnable?;
      var (cur, st1, writes) := QueryEnabled(m, st.(ready := Idle), ctx.groupId);
      if cur != want then
        (Some("OK"), st1.(enabled := st1.enabled[ctx.groupId := want]),
         writes + [SetFlag(ctx.groupId, m.groupName + ".enable", want)])
      else (Some("OK"), st1, writes)
  }

  /** After an admin's toggle is triggered and executed, the chat group's flag reads as requested. */
  lemma ToggleThenQuery(m: Manager, st: Router, ctx: Ctx, admins: set<int>, enable: bool)
    requires Valid(m, st)
    requires ctx.userId in admins
    ensures var msg := if enable then EnableCommand(m) else DisableCommand(m);
      var (fired, st1, _) := JudgeTrigger(m, st, msg, ctx, admins);
      var (reply, st2, _) := ExecuteEvent(m, st1, msg, ctx);
      && fired && reply == Some("OK") && st2.ready.Idle?
      && QueryEnabled(m, st2, ctx.groupId).0 == enable
      && QueryEnabled(m, st2, ctx.groupId).2 == []
  {
    TogglesDiffer(m);
  }

  /** Repeating a toggle that is already in effect writes nothing and leaves the flags as they are. */
  lemma ToggleIdempotent(m: Manager, st: Router, ctx: Ctx, admins: set<int>, enable: bool)
    requires Valid(m, st)
    requires ctx.userId in admins
    requires ctx.groupId in st.enabled && st.enabled[ctx.groupId] == enable
    ensures var msg := if enable then EnableCommand(m) else DisableCommand(m);
      var (_, st1, w1) := JudgeTrigger(m, st, msg, ctx, admins);
      var (_, st2, w2) := ExecuteEvent(m, st1, msg, ctx);
      w1 == [] && w2 == [] && st2.enabled == st.enabled
  {
    TogglesDiffer(m);
  }

  // ---------------------------------------------------------------- group info

  /** The children's `description` entries, in order. */
  function Descriptions(plugins: seq<Plugin>): (r: seq<string>)
    ensures |r| == |plugins|
    ensures forall i :: 0 <= i < |r| ==> r[i] == plugins[i].info.description
  {
    seq(|plugins|, i requires 0 <= i < |plugins| => plugins[i].info.description)
  }

  /** The children's `commandDescription` entries, in order. */
  function CommandDescriptions(plugins: seq<Plugin>): (r: seq<string>)
    ensures |r| == |plugins|
    ensures forall i :: 0 <= i < |r| ==> r[i] == plugins[i].info.commandDescription
  {
    seq(|plugins|, i requires 0 <= i < |plugins| => plugins[i].info.commandDescription)
  }

  /** The loop `acc += d + '/'` followed by `acc[:-1]`: the entries joined by `/`. */
  function SlashJoined(parts: seq<string>): (r: string)
    ensures r == Join(parts, "/")
  {
    DropLastSuffixEachIsJoin(parts, '/');
    DropLast(SuffixEach(parts, "/"))
  }

  /** `if key not in info: info[key] = v`. */
  function Fill(info: map<string, InfoValue>, key: string, v: InfoValue): (r: map<string, InfoValue>)
    ensures r.Keys == info.Keys + {key}
    ensures forall k :: k in info ==> r[k] == info[k]
    ensures key !in info ==> r[key] == v
  {
    if key in info then info else info[key := v]
  }

  /**
   `_checkGroupInfo`: a missing `name` becomes the group name; a missing
   `description` or `commandDescription` becomes the children's entries
   joined by `/`; `usePlace` is always `['group']`; every other entry stays.
   */
  function CheckGroupInfo(info: map<string, InfoValue>, groupName: string, plugins: seq<Plugin>): (r: map<string, InfoValue>)
    ensures r.Keys == info.Keys + {"name", "description", "commandDescription", "usePlace"}
    ensures "name" in r && "description" in r && "commandDescription" in r && "usePlace" in r
    ensures forall k :: k in info && k != "usePlace" ==> k in r && r[k] == info[k]
    ensures "name" !in info ==> r["name"] == Str(groupName)
    ensures "description" !in info ==> r["description"] == Str(Join(Descriptions(plugins), "/"))
    ensures "commandDescription" !in info ==> r["commandDescription"] == Str(Join(CommandDescriptions(plugins), "/"))
    ensures r["usePlace"] == Strs(["group"])
  {
    var i1 := Fill(info, "name", Str(groupName));
    var i2 := Fill(i1, "description", Str(SlashJoined(Descriptions(plugins))));
    var i3 := Fill(i2, "commandDescription", Str(SlashJoined(CommandDescriptions(plugins))));
    i3["usePlace" := Strs(["group"])]
  }

  /** Checking the info a second time changes nothing. */
  lemma CheckGroupInfoIdempotent(info: map<string, InfoValue>, groupName: string, plugins: seq<Plugin>)
    ensures var once := CheckGroupInfo(info, groupName, plugins);
      CheckGroupInfo(once, groupName, plugins) == once
  {
    var once := CheckGroupInfo(info, groupName, plugins);
    var twice := CheckGroupInfo(once, groupName, plugins);
    assert forall k :: k in twice <==> k in once;
    assert forall k :: k in twice ==> twice[k] == once[k];
  }

  // ---------------------------------------------------------------- construction

  /**
   `__init__` with the keyword default as written: a call without
   `groupInfo` gets the one dictionary `shared` that every such call shares,
   and `_checkGroupInfo` fills it in place; the returned dictionary is that
   shared one as the next default-argument call will see it.
   */
  function NewManagerAsWritten(plugins: seq<Plugin>, groupName: string, groupInfo: Option<map<string, InfoValue>>,
                               stored: map<int, bool>, shared: map<string, InfoValue>)
    : (r: (Manager, Router, map<string, InfoValue>))
    ensures groupInfo.None? ==> r.0.groupInfo == CheckGroupInfo(shared, groupName, plugins) && r.2 == r.0.groupInfo
    ensures groupInfo.Some? ==> r.0.groupInfo == CheckGroupInfo(groupInfo.value, groupName, plugins) && r.2 == shared
    ensures r.1 == Router(Idle, stored)
  {
    var info := CheckGroupInfo(groupInfo.GetOr(shared), groupName, plugins);
    (Manager(plugins, groupName, info), Router(Idle, stored), if groupInfo.None? then info else shared)
  }

  /**
   As written, the second manager built without `groupInfo` reports the
   first one's name.
   */
  lemma SharedDefaultLeaks(p1: seq<Plugin>, p2: seq<Plugin>, stored: map<int, bool>)
    ensures var (m1, _, shared) := NewManagerAsWritten(p1, "alpha", None, stored, map[]);
      var (m2, _, _) := NewManagerAsWritten(p2, "beta", None, stored, shared);
      m1.groupInfo["name"] == Str("alpha") && m2.groupInfo["name"] == Str("alpha")
  {
  }

  /**
   `__init__` as intended: a call without `groupInfo` starts from a fresh
   empty dictionary. The selection starts empty and the flags are the stored
   ones (`readGlobalConfig`).
   */
  function NewManager(plugins: seq<Plugin>, groupName: string, groupInfo: Option<map<string, InfoValue>>,
                      stored: map<int, bool>): (r: (Manager, Router))
    ensures r.0.plugins == plugins && r.0.groupName == groupName
    ensures r.1 == Router(Idle, stored)
    ensures Valid(r.0, r.1)
    ensures groupInfo.None? ==>
      && r.0.groupInfo.Keys == {"name", "description", "commandDescription", "usePlace"}
      && r.0.groupInfo["name"] == Str(groupName)
      && r.0.groupInfo["description"] == Str(Join(Descriptions(plugins), "/"))
      && r.0.groupInfo["commandDescription"] == Str(Join(CommandDescriptions(plugins), "/"))
    ensures groupInfo.Some? && "name" in groupInfo.value ==>
      "name" in r.0.groupInfo && r.0.groupInfo["name"] == groupInfo.value["name"]
  {
    (Manager(plugins, groupName, CheckGroupInfo(groupInfo.GetOr(map[]), groupName, plugins)), Router(Idle, stored))
  }

  /** As intended, managers built one after the other without `groupInfo` each report their own name. */
  lemma FreshDefaultsAreIndependent(p1: seq<Plugin>, p2: seq<Plugin>, n1: string, n2: string, stored: map<int, bool>)
    ensures NewManager(p1, n1, None, stored).0.groupInfo["name"] == Str(n1)
    ensures NewManager(p2, n2, None, stored).0.groupInfo["name"] == Str(n2)
  {
  }
}
