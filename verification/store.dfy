/**
  The process-wide stores (`configStore`, `agentStore`, `deviceStore`, the
  report and the sync frequencies of the authentication module) gathered into
  one explicit application state, and the shape of the backend's replies.
  A backend call is an input `PostOutcome`: it returned a reply, returned
  nothing, or threw.
*/
module Store {
  import opened Wrappers
  import ReportService
  import SystemIdentity

  /** The JavaScript values the agent compares with `===`. */
  datatype JsValue = Undefined | Null | Bool(b: bool) | Number(n: int) | Str(s: string) | Object

  datatype RegexMaskRule = RegexMaskRule(
    name: Option<string>,
    pattern: Option<string>,
    isFullMask: bool,
    maskWith: Option<string>)

  datatype Configurations = Configurations(
    regxRules: seq<RegexMaskRule>,
    documentFilesExtentions: seq<string>,
    esc: Option<string>)

  /** The agent record the authentication endpoint returns as `resultData`. */
  datatype AgentData = AgentData(
    agentId: string,
    platform: Option<string>,
    accountId: Option<string>,
    syncFrequency: Option<int>,
    reportFrequency: Option<int>,
    configurations: Option<Configurations>)

  datatype ApiReply<D> = ApiReply(resultCode: JsValue, resultMessage: Option<string>, resultData: Option<D>)

  /** What `await httpService.postAsync(...)` gave: a reply, nothing, or a
      thrown error with its (possibly missing) `message`. */
  datatype PostOutcome<D> = Returned(reply: ApiReply<D>) | NoResult | Threw(message: Option<string>)

  datatype ConfigState = ConfigState(
    isRegistered: bool,
    accountId: string,
    agentId: string,
    agentType: string)

  datatype AppState = AppState(
    config: ConfigState,
    agent: Option<AgentData>,
    device: Option<SystemIdentity.DeviceDetails>,
    report: ReportService.OperationReport,
    syncMinutes: int,
    reportMinutes: int)

  /** `agentStore.agent?.agentId ?? configStore.agentId`: the agent id that
      `saveReport()` writes into a report that has none. */
  function FallbackAgentId(state: AppState): (r: string)
    ensures state.agent.Some? ==> r == state.agent.value.agentId
    ensures state.agent.None? ==> r == state.config.agentId
  {
    match state.agent
    case Some(agent) => agent.agentId
    case None => state.config.agentId
  }

  /** An async operation's boolean result together with the state it leaves. */
  datatype Step = Step(ok: bool, state: AppState)

  /** `result && result.resultCode === 0`. */
  predicate ReturnedCodeZero<D>(outcome: PostOutcome<D>) {
    outcome.Returned? && outcome.reply.resultCode == Number(0)
  }
}
