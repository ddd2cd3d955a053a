/**
  The authentication module: the two file-name helpers, the outcome logic of
  `authSync`, and the timer state kept by `scheduleReAuth`.  The clock is the
  parameter `now` (an ISO-8601 time string), the backend call an input
  `PostOutcome`, and the timers a value recording which intervals are live.
*/
module Authenticate {
  import opened Wrappers
  import opened JsText
  import opened Store
  import ReportService

  /* ---------- getRawFileName ---------- */

  /** `getRawFileName(fileName)`: `_raw` goes in front of the last dot, or at
      the end when there is no dot.  The source splits the stem on dots, glues
      `_raw` to the last piece and joins again. */
  function RawFileName(fileName: string): (r: string)
    ensures '.' !in fileName ==> r == fileName + "_raw"
    ensures forall d :: 0 <= d < |fileName| && fileName[d] == '.' && '.' !in fileName[d + 1..] ==>
              r == fileName[..d] + "_raw" + fileName[d..]
  {
    var dot := LastIndexOf(fileName, '.');
    var ext := if dot.Some? then fileName[dot.value..] else "";
    var withoutExt := if ext != "" then fileName[..dot.value] else fileName;
    var parts := Split(withoutExt, '.');
    if |parts| == 1 then
      parts[0] + "_raw" + ext
    else
      JoinExtendLast(parts, '.', "_raw");
      Join(parts[..|parts| - 1] + [parts[|parts| - 1] + "_raw"], '.') + ext
  }

  /** The result is four characters longer and keeps the extension, i.e. the
      text from the last dot on, as its suffix. */
  lemma RawFileNameKeepsExtension(fileName: string, d: nat)
    requires d < |fileName| && fileName[d] == '.' && '.' !in fileName[d + 1..]
    ensures |RawFileName(fileName)| == |fileName| + 4
    ensures RawFileName(fileName)[|RawFileName(fileName)| - (|fileName| - d)..] == fileName[d..]
  {
    var r := RawFileName(fileName);
    assert r == fileName[..d] + "_raw" + fileName[d..];
  }

  /* ---------- resolveLogFile ---------- */

  /** `s.slice(0, n)` for `n >= 0`: clamps at the end of the string. */
  function Prefix(s: string, n: nat): (r: string)
    ensures |r| <= n && r <= s
    ensures n <= |s| ==> |r| == n
    ensures n > |s| ==> r == s
  {
    if n <= |s| then s[..n] else s
  }

  /** `pattern.replace(/\{([^}]+)\}/g, ...)`: scanning left to right, a `{`
      followed by one or more non-`}` characters and a `}` is a placeholder and
      becomes the prefix of `now` as long as its content; `{}` and a `{` with no
      closing brace stay as they are. */
  function ResolveLogFile(pattern: string, now: string): (r: string)
    ensures |r| <= |pattern|
    decreases |pattern|
  {
    if |pattern| == 0 then ""
    else if pattern[0] == '{' then
      match FindIndex(pattern[1..], (c: char) => c == '}')
      case Some(j) =>
        if j > 0 then Prefix(now, j) + ResolveLogFile(pattern[j + 2..], now)
        else "{" + ResolveLogFile(pattern[1..], now)
      case None => "{" + ResolveLogFile(pattern[1..], now)
    else [pattern[0]] + ResolveLogFile(pattern[1..], now)
  }

  /** Without a closing brace there is no placeholder, so nothing changes. */
  lemma {:induction false} NoClosingBraceUnchanged(pattern: string, now: string)
    requires '}' !in pattern
    ensures ResolveLogFile(pattern, now) == pattern
    decreases |pattern|
  {
    if |pattern| > 0 {
      assert '}' !in pattern[1..];
      NoClosingBraceUnchanged(pattern[1..], now);
      assert pattern == [pattern[0]] + pattern[1..];
    }
  }

  /** Literal text up to a placeholder is copied, the placeholder becomes the
      timestamp prefix as long as its content, and the rest is resolved on its
      own. */
  lemma {:induction false} PlaceholderReplaced(lit: string, content: string, rest: string, now: string)
    requires '{' !in lit
    requires |content| > 0 && '}' !in content
    ensures ResolveLogFile(lit + "{" + content + "}" + rest, now)
         == lit + Prefix(now, |content|) + ResolveLogFile(rest, now)
    decreases |lit|
  {
    var tail := "{" + content + "}" + rest;
    var resolved := Prefix(now, |content|) + ResolveLogFile(rest, now);
    assert lit + "{" + content + "}" + rest == lit + tail;
    assert lit + Prefix(now, |content|) + ResolveLogFile(rest, now) == lit + resolved;
    if |lit| == 0 {
      assert lit + tail == tail && lit + resolved == resolved;
      PlaceholderAtStart(content, rest, now);
      assert ResolveLogFile(tail, now) == resolved;
    } else {
      assert lit[1..] + "{" + content + "}" + rest == lit[1..] + tail;
      assert lit[1..] + Prefix(now, |content|) + ResolveLogFile(rest, now) == lit[1..] + resolved;
      PlaceholderReplaced(lit[1..], content, rest, now);
      assert lit[0] in lit;
      LiteralPrefixCopied(lit, tail, resolved, now);
    }
    assert ResolveLogFile(lit + tail, now) == lit + resolved;
  }

  /** One more literal character in front of an already resolved text. */
  lemma LiteralPrefixCopied(lit: string, tail: string, resolved: string, now: string)
    requires |lit| > 0 && lit[0] != '{'
    requires ResolveLogFile(lit[1..] + tail, now) == lit[1..] + resolved
    ensures ResolveLogFile(lit + tail, now) == lit + resolved
  {
    HeadTail(lit, tail);
    LiteralCopied(lit + tail, now);
    assert lit == [lit[0]] + lit[1..];
  }

  /** Splitting the first character off a concatenation. */
  lemma HeadTail(a: string, b: string)
    requires |a| > 0
    ensures (a + b)[0] == a[0] && (a + b)[1..] == a[1..] + b
  {
  }

  lemma PlaceholderAtStart(content: string, rest: string, now: string)
    requires |content| > 0 && '}' !in content
    ensures ResolveLogFile("{" + content + "}" + rest, now) == Prefix(now, |content|) + ResolveLogFile(rest, now)
  {
    var pattern := "{" + content + "}" + rest;
    var tail := pattern[1..];
    assert tail == content + "}" + rest;
    assert tail[|content|] == '}';
    assert forall k :: 0 <= k < |content| ==> tail[k] == content[k];
    var found := FindIndex(tail, (c: char) => c == '}');
    assert found == Some(|content|);
    assert pattern[|content| + 2..] == rest;
  }

  /** A character other than `{` is copied and the rest resolved. */
  lemma LiteralCopied(pattern: string, now: string)
    requires |pattern| > 0 && pattern[0] != '{'
    ensures ResolveLogFile(pattern, now) == [pattern[0]] + ResolveLogFile(pattern[1..], now)
  {
  }

  /** An empty pair of braces is not a placeholder. */
  lemma EmptyBracesKept(rest: string, now: string)
    ensures ResolveLogFile("{}" + rest, now) == "{}" + ResolveLogFile(rest, now)
  {
    var pattern := "{}" + rest;
    var tail := pattern[1..];
    assert tail == "}" + rest;
    assert tail[1..] == rest;
    assert FindIndex(tail, (c: char) => c == '}') == Some(0);
    assert ResolveLogFile(pattern, now) == "{" + ResolveLogFile(tail, now);
    LiteralCopied(tail, now);
  }

  /* ---------- authSync ---------- */

  const DefaultSyncMinutes: int := 2
  const DefaultReportMinutes: int := 1

  /** The configuration-bearing agent record of a reply, if the reply has one:
      `result?.resultData?.configurations`. */
  predicate HasConfigurations(outcome: PostOutcome<AgentData>) {
    outcome.Returned? && outcome.reply.resultData.Some?
    && outcome.reply.resultData.value.configurations.Some?
  }

  /** `authSync()`: success exactly when the reply carries configurations (the
      result code is not consulted).  Every call appends one sync entry.  On
      success the agent record is replaced by the reply's data and the two
      frequencies are read from it, `??` keeping an explicit 0; on failure
      only the report changes.  The entry is added before the agent record is
      replaced, so the report's save falls back on the previous agent. */
  function AuthSync(state: AppState, outcome: PostOutcome<AgentData>, now: string): (r: Step)
    ensures r.ok <==> HasConfigurations(outcome)
    ensures r.state.config == state.config && r.state.device == state.device
    ensures r.state.report.rules == state.report.rules && r.state.report.files == state.report.files
    ensures ReportService.SavedHeader(r.state.report, state.report, FallbackAgentId(state),
                                      state.report.reportOn, now)
    ensures |r.state.report.sync| == |state.report.sync| + 1
    ensures r.state.report.sync[..|state.report.sync|] == state.report.sync
    ensures r.state.report.sync[|state.report.sync|].isSuccess == r.ok
    ensures r.state.report.sync[|state.report.sync|].on == now
    ensures r.ok ==>
              && r.state.agent == outcome.reply.resultData
              && r.state.report.sync[|state.report.sync|].message == ""
              && (outcome.reply.resultData.value.syncFrequency.Some? ==>
                    r.state.syncMinutes == outcome.reply.resultData.value.syncFrequency.value)
              && (outcome.reply.resultData.value.syncFrequency.None? ==> r.state.syncMinutes == DefaultSyncMinutes)
              && (outcome.reply.resultData.value.reportFrequency.Some? ==>
                    r.state.reportMinutes == outcome.reply.resultData.value.reportFrequency.value)
              && (outcome.reply.resultData.value.reportFrequency.None? ==> r.state.reportMinutes == DefaultReportMinutes)
    ensures !r.ok ==>
              r.state.agent == state.agent && r.state.syncMinutes == state.syncMinutes
              && r.state.reportMinutes == state.reportMinutes
    ensures !r.ok && outcome.Returned? ==>
              r.state.report.sync[|state.report.sync|].message == outcome.reply.resultMessage.GetOr("Unknown")
    ensures outcome.NoResult? ==> r.state.report.sync[|state.report.sync|].message == "Unknown"
    ensures outcome.Threw? ==>
              r.state.report.sync[|state.report.sync|].message == outcome.message.GetOr("Unexpected error")
  {
    var fallback := FallbackAgentId(state);
    match outcome
    case Returned(reply) =>
      if reply.resultData.Some? && reply.resultData.value.configurations.Some? then
        var agent := reply.resultData.value;
        Step(true, state.(
          report := ReportService.AddSync(state.report, true, "", fallback, now),
          agent := Some(agent),
          syncMinutes := agent.syncFrequency.GetOr(DefaultSyncMinutes),
          reportMinutes := agent.reportFrequency.GetOr(DefaultReportMinutes)))
      else
        Step(false, state.(report := ReportService.AddSync(state.report, false, reply.resultMessage.GetOr("Unknown"), fallback, now)))
    case NoResult =>
      Step(false, state.(report := ReportService.AddSync(state.report, false, "Unknown", fallback, now)))
    case Threw(message) =>
      Step(false, state.(report := ReportService.AddSync(state.report, false, message.GetOr("Unexpected error"), fallback, now)))
  }

  /** A run of authentication attempts leaves one sync entry per attempt, whose
      success flags are the attempts' results in order, and the agent record
      is the data of the last successful attempt (unchanged if none). */
  function AuthSyncAll(state: AppState, outcomes: seq<PostOutcome<AgentData>>, now: string): (r: AppState)
    ensures |r.report.sync| == |state.report.sync| + |outcomes|
    ensures r.report.sync[..|state.report.sync|] == state.report.sync
    ensures forall k :: 0 <= k < |outcomes| ==>
              r.report.sync[|state.report.sync| + k].isSuccess == HasConfigurations(outcomes[k])
    ensures (forall k :: 0 <= k < |outcomes| ==> !HasConfigurations(outcomes[k])) ==> r.agent == state.agent
    ensures |outcomes| > 0 && HasConfigurations(outcomes[|outcomes| - 1]) ==>
              r.agent == outcomes[|outcomes| - 1].reply.resultData
    decreases |outcomes|
  {
    if |outcomes| == 0 then state
    else
      var prefix := AuthSyncAll(state, outcomes[..|outcomes| - 1], now);
      var last := AuthSync(prefix, outcomes[|outcomes| - 1], now);
      assert forall k :: 0 <= k < |outcomes| - 1 ==> outcomes[..|outcomes| - 1][k] == outcomes[k];
      assert last.state.report.sync[..|state.report.sync|] == prefix.report.sync[..|state.report.sync|];
      last.state
  }

  /* ---------- scheduleReAuth ---------- */

  datatype TimerKind = ReAuth | ReportFlush

  /** `Checked` is the scheduled callback that awaits the call and falls back
      on failure; `Bare` is `authSync` or `sendReport` itself, as installed by
      the fallback. */
  datatype Callback = Checked | Bare

  datatype Timer = Timer(id: nat, kind: TimerKind, periodMs: int, callback: Callback)

  /** The live intervals, the two module-level handles, and the next handle. */
  datatype Scheduler = Scheduler(live: seq<Timer>, authHandle: Option<nat>, reportHandle: Option<nat>, nextId: nat)

  const AuthRetryMs: int := 5 * 60 * 1000
  const ReportRetryMs: int := 60 * 1000

  function MinutesToMs(minutes: int): (ms: int)
    ensures ms % 60000 == 0 && ms / 60000 == minutes
    ensures minutes > 0 ==> ms >= 60000
    ensures minutes <= 0 ==> ms <= 0
  {
    minutes * 60 * 1000
  }

  function Handle(s: Scheduler, kind: TimerKind): Option<nat> {
    match kind
    case ReAuth => s.authHandle
    case ReportFlush => s.reportHandle
  }

  /** Handles are fresh and distinct, and every live timer is the one its
      kind's handle refers to. */
  predicate Wf(s: Scheduler) {
    && (forall t :: t in s.live ==> t.id < s.nextId)
    && DistinctIds(s.live)
    && (forall t :: t in s.live ==> Handle(s, t.kind) == Some(t.id))
  }

  const NoTimers: Scheduler := Scheduler([], None, None, 0)

  predicate DistinctIds(live: seq<Timer>) {
    forall i, j :: 0 <= i < j < |live| ==> live[i].id != live[j].id
  }

  /** `if (handle) clearInterval(handle)`: the timer with that handle stops
      being live, and only it. */
  function ClearInterval(live: seq<Timer>, handle: Option<nat>): (r: seq<Timer>)
    ensures forall t :: t in r <==> t in live && (handle.None? || t.id != handle.value)
    ensures DistinctIds(live) ==> DistinctIds(r)
  {
    if handle.None? || |live| == 0 then live
    else
      var rest := ClearInterval(live[1..], handle);
      if live[0].id == handle.value then rest
      else
        var r := [live[0]] + rest;
        if DistinctIds(live) then
          assert forall t :: t in live[1..] ==> t.id != live[0].id;
          assert forall j :: 0 < j < |r| ==> r[j] in rest;
          r
        else r
  }

  /** `setInterval(...)`: a fresh handle for a new live timer. */
  function SetInterval(s: Scheduler, kind: TimerKind, periodMs: int, callback: Callback): (r: Scheduler)
    ensures r.live == s.live + [Timer(s.nextId, kind, periodMs, callback)]
    ensures r.nextId == s.nextId + 1
    ensures r.authHandle == (if kind == ReAuth then Some(s.nextId) else s.authHandle)
    ensures r.reportHandle == (if kind == ReportFlush then Some(s.nextId) else s.reportHandle)
    ensures Wf(s) ==> forall t :: t in s.live ==> t.id != Handle(r, kind).value
  {
    var t := Timer(s.nextId, kind, periodMs, callback);
    match kind
    case ReAuth => Scheduler(s.live + [t], Some(s.nextId), s.reportHandle, s.nextId + 1)
    case ReportFlush => Scheduler(s.live + [t], s.authHandle, Some(s.nextId), s.nextId + 1)
  }

  /** Clearing the kind's current timer and installing a new one keeps the
      scheduler well formed. */
  lemma {:induction false} ReplaceKeepsWf(s: Scheduler, kind: TimerKind, periodMs: int, callback: Callback)
    requires Wf(s)
    ensures Wf(SetInterval(s.(live := ClearInterval(s.live, Handle(s, kind))), kind, periodMs, callback))
  {
    var cleared := s.(live := ClearInterval(s.live, Handle(s, kind)));
    var r := SetInterval(cleared, kind, periodMs, callback);
    assert forall t :: t in cleared.live ==> t.kind != kind;
    forall i, j | 0 <= i < j < |r.live|
      ensures r.live[i].id != r.live[j].id
    {
      if j == |r.live| - 1 {
        assert r.live[i] in cleared.live;
      } else {
        assert r.live[i] == cleared.live[i] && r.live[j] == cleared.live[j];
      }
    }
  }

  /** `scheduleReAuth()`: both previous intervals are cleared and replaced by a
      checked re-authentication interval and a checked report interval running
      at the current frequencies. */
  function ScheduleReAuth(s: Scheduler, syncMinutes: int, reportMinutes: int): (r: Scheduler)
    requires Wf(s)
    ensures Wf(r)
    ensures forall t :: t in r.live <==>
              t == Timer(s.nextId, ReAuth, MinutesToMs(syncMinutes), Checked)
              || t == Timer(s.nextId + 1, ReportFlush, MinutesToMs(reportMinutes), Checked)
  {
    var s1 := s.(live := ClearInterval(s.live, s.authHandle));
    var s2 := s1.(live := ClearInterval(s1.live, s1.reportHandle));
    assert forall t :: t !in s2.live;
    var s3 := SetInterval(s2, ReAuth, MinutesToMs(syncMinutes), Checked);
    var r := SetInterval(s3, ReportFlush, MinutesToMs(reportMinutes), Checked);
    assert forall i :: 0 <= i < |r.live| ==> r.live[i] in s3.live || i == |r.live| - 1;
    assert forall i :: 0 <= i < |s3.live| ==> s3.live[i] in s2.live || i == |s3.live| - 1;
    r
  }

  /** The firing of live timer `id`, whose call reported `success`.  A checked
      timer whose call failed is replaced by a bare retry interval (5 minutes
      for re-authentication, 1 minute for the report); in every other case
      nothing changes, so a bare retry interval stays in place even after a
      success. */
  function Tick(s: Scheduler, id: nat, success: bool): (r: Scheduler)
    requires Wf(s)
    ensures Wf(r)
    ensures forall i :: 0 <= i < |s.live| && s.live[i].id == id && s.live[i].callback == Checked && !success ==>
              var kind := s.live[i].kind;
              |r.live| > 0 && r.live[|r.live| - 1] == Timer(s.nextId, kind, if kind == ReAuth then AuthRetryMs else ReportRetryMs, Bare)
              && s.live[i] !in r.live
              && (forall t :: t in s.live && t.kind != kind ==> t in r.live)
              && (forall t :: t in r.live ==>
                    t == Timer(s.nextId, kind, if kind == ReAuth then AuthRetryMs else ReportRetryMs, Bare)
                    || (t in s.live && t.kind != kind))
              && (forall other :: other != kind ==> Handle(r, other) == Handle(s, other))
    ensures success ==> r == s
    ensures forall i :: 0 <= i < |s.live| && s.live[i].id == id && s.live[i].callback == Bare ==> r == s
  {
    match FindIndex(s.live, (t: Timer) => t.id == id)
    case None => s
    case Some(i) =>
      var t := s.live[i];
      if t.callback == Checked && !success then
        ReplaceKeepsWf(s, t.kind, if t.kind == ReAuth then AuthRetryMs else ReportRetryMs, Bare);
        SetInterval(s.(live := ClearInterval(s.live, Handle(s, t.kind))), t.kind,
                    if t.kind == ReAuth then AuthRetryMs else ReportRetryMs, Bare)
      else s
  }

  /** At most one interval of each kind is live. */
  lemma AtMostOnePerKind(s: Scheduler)
    requires Wf(s)
    ensures forall i, j :: 0 <= i < |s.live| && 0 <= j < |s.live| && s.live[i].kind == s.live[j].kind ==> i == j
  {
    forall i, j | 0 <= i < |s.live| && 0 <= j < |s.live| && s.live[i].kind == s.live[j].kind
      ensures i == j
    {
      assert s.live[i].id == s.live[j].id;
    }
  }
}
