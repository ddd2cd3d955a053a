/**
  `sendReport()`: fill the report's missing identity fields, post it, and clear
  it only on a confirmed success.  The report object is shared with the
  report service, so the filled fields stay filled whatever the reply.
*/
module SendReport {
  import opened Wrappers
  import opened Store
  import ReportService
  import SystemIdentity

  const AgentType: string := "middleware_agent"

  /** JavaScript truthiness of an optional string: present and non-empty. */
  predicate Truthy(v: Option<string>) {
    v.Some? && v.value != ""
  }

  /** Step 2 of `sendReport`: `accountId`, `platform` and `deviceId` are taken
      from the agent and device stores only when empty or missing; `type` is
      always set. */
  function FillMissing(report: ReportService.OperationReport, agent: Option<AgentData>,
                       device: Option<SystemIdentity.DeviceDetails>): (r: ReportService.OperationReport)
    ensures report.accountId != "" ==> r.accountId == report.accountId
    ensures report.accountId == "" ==>
              r.accountId == (if agent.Some? then agent.value.accountId.GetOr("") else "")
    ensures Truthy(report.platform) ==> r.platform == report.platform
    ensures !Truthy(report.platform) ==>
              r.platform == Some(if agent.Some? then agent.value.platform.GetOr("") else "")
    ensures Truthy(report.deviceId) ==> r.deviceId == report.deviceId
    ensures !Truthy(report.deviceId) ==>
              r.deviceId == (if device.Some? then Some(device.value.id) else None)
    ensures r.reportType == AgentType
    ensures r.agentId == report.agentId && r.reportOn == report.reportOn
    ensures r.sync == report.sync && r.rules == report.rules && r.files == report.files
  {
    var accountId := if report.accountId == "" then (if agent.Some? then agent.value.accountId.GetOr("") else "")
                     else report.accountId;
    var platform := if !Truthy(report.platform) then Some(if agent.Some? then agent.value.platform.GetOr("") else "")
                    else report.platform;
    var deviceId := if !Truthy(report.deviceId) then (if device.Some? then Some(device.value.id) else None)
                    else report.deviceId;
    report.(accountId := accountId, platform := platform, deviceId := deviceId, reportType := AgentType)
  }

  /** Filling twice fills nothing more. */
  lemma FillMissingIdempotent(report: ReportService.OperationReport, agent: Option<AgentData>,
                              device: Option<SystemIdentity.DeviceDetails>)
    ensures FillMissing(FillMissing(report, agent, device), agent, device) == FillMissing(report, agent, device)
  {
  }

  /** `sendReport()` with the backend's answer `outcome`: true, and the report
      cleared (and saved, which fills an empty agent id), exactly when the
      reply's `resultCode` is 0; any other reply, no reply, or a thrown error
      gives false and keeps the collected entries. */
  function SendReport(state: AppState, outcome: PostOutcome<JsValue>, now: string): (r: Step)
    ensures r.ok <==> ReturnedCodeZero(outcome)
    ensures r.ok ==> r.state.report.sync == [] && r.state.report.rules == [] && r.state.report.files == []
    ensures r.ok ==> r.state.report.reportOn == now
    ensures !r.ok ==> r.state.report.sync == state.report.sync && r.state.report.rules == state.report.rules
                      && r.state.report.files == state.report.files && r.state.report.reportOn == state.report.reportOn
    ensures r.state.report.reportType == AgentType
    ensures state.report.accountId != "" ==> r.state.report.accountId == state.report.accountId
    ensures Truthy(state.report.platform) ==> r.state.report.platform == state.report.platform
    ensures Truthy(state.report.deviceId) ==> r.state.report.deviceId == state.report.deviceId
    ensures !r.ok ==> r.state.report.agentId == state.report.agentId
    ensures r.ok ==> r.state.report.agentId == ReportService.SavedAgentId(state.report, FallbackAgentId(state))
    ensures var filled := FillMissing(state.report, state.agent, state.device);
            && r.state.report.accountId == filled.accountId
            && r.state.report.platform == filled.platform
            && r.state.report.deviceId == filled.deviceId
    ensures r.state == state.(report := r.state.report)
  {
    var filled := FillMissing(state.report, state.agent, state.device);
    if ReturnedCodeZero(outcome) then
      Step(true, state.(report := ReportService.ClearReport(filled, FallbackAgentId(state), now)))
    else
      Step(false, state.(report := filled))
  }

  /** A failed flush loses nothing: the entries collected so far are still
      there for the next attempt, and a later success clears them. */
  lemma FailedThenSucceeded(state: AppState, failure: PostOutcome<JsValue>, success: PostOutcome<JsValue>,
                            now1: string, now2: string)
    requires !ReturnedCodeZero(failure) && ReturnedCodeZero(success)
    ensures var first := SendReport(state, failure, now1);
            && !first.ok
            && first.state.report.rules == state.report.rules
            && var second := SendReport(first.state, success, now2);
               second.ok && second.state.report.rules == [] && second.state.report.files == []
  {
  }
}
