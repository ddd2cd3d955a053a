/**
  `registerUserWithAgentAsync()`: send the agent and device ids with a fresh
  14-character key, and decide from the reply whether the user is registered.
  The random bytes behind the key are an input.
*/
module Registration {
  import opened Wrappers
  import opened Store
  import CryptoService

  const KeyLength: nat := 14

  datatype RegistrationData = RegistrationData(isUserRegistered: JsValue)

  datatype RegisterRequest = RegisterRequest(
    agentId: string,
    deviceId: Option<string>,
    deviceIp: Option<string>,
    esc: string)

  datatype Registered = Registered(ok: bool, state: AppState, request: RegisterRequest)

  /** `result?.resultData?.isUserRegistered === true`: strictly the boolean. */
  predicate AlreadyRegistered(outcome: PostOutcome<RegistrationData>) {
    outcome.Returned? && outcome.reply.resultData.Some?
    && outcome.reply.resultData.value.isUserRegistered == Bool(true)
  }

  /** The request body: agent id from the configuration, device id and IP
      from the device store, and as `esc` the key `generateRandomKey(14)`
      spells from `keyBytes`. */
  function Request(state: AppState, keyBytes: seq<CryptoService.byte>): (r: RegisterRequest)
    requires |keyBytes| == KeyLength
    ensures |r.esc| == KeyLength && forall i :: 0 <= i < KeyLength ==> r.esc[i] in CryptoService.CHARS
    ensures forall i :: 0 <= i < KeyLength ==>
              r.esc[i] == CryptoService.CHARS[keyBytes[i] % |CryptoService.CHARS|]
    ensures r.agentId == state.config.agentId
    ensures r.deviceId == (if state.device.Some? then Some(state.device.value.id) else None)
    ensures r.deviceIp == (if state.device.Some? then Some(state.device.value.ip) else None)
  {
    var key := CryptoService.GenerateRandomKey(KeyLength, keyBytes);
    RegisterRequest(
      state.config.agentId,
      if state.device.Some? then Some(state.device.value.id) else None,
      if state.device.Some? then Some(state.device.value.ip) else None,
      key.value)
  }

  /** `registerUserWithAgentAsync()`: success on result code 0, or else when
      the reply says the user is already registered; both set `isRegistered`.
      Every other reply, no reply, or a thrown error fails and changes
      nothing. */
  function RegisterUserWithAgent(state: AppState, keyBytes: seq<CryptoService.byte>,
                                 outcome: PostOutcome<RegistrationData>): (r: Registered)
    requires |keyBytes| == KeyLength
    ensures r.ok <==> ReturnedCodeZero(outcome) || AlreadyRegistered(outcome)
    ensures r.ok ==> r.state == state.(config := state.config.(isRegistered := true))
    ensures !r.ok ==> r.state == state
    ensures r.request == Request(state, keyBytes)
  {
    var request := Request(state, keyBytes);
    if ReturnedCodeZero(outcome) || AlreadyRegistered(outcome) then
      Registered(true, state.(config := state.config.(isRegistered := true)), request)
    else
      Registered(false, state, request)
  }

  /** "Already registered" is handled exactly as a first registration. */
  lemma AlreadyRegisteredLikeFresh(state: AppState, keyBytes: seq<CryptoService.byte>,
                                   newcomer: PostOutcome<RegistrationData>, already: PostOutcome<RegistrationData>)
    requires |keyBytes| == KeyLength
    requires ReturnedCodeZero(newcomer) && AlreadyRegistered(already)
    ensures RegisterUserWithAgent(state, keyBytes, newcomer) == RegisterUserWithAgent(state, keyBytes, already)
  {
  }

  /** Once registered, no later attempt un-registers. */
  lemma RegisteredStaysRegistered(state: AppState, keyBytes: seq<CryptoService.byte>,
                                  outcome: PostOutcome<RegistrationData>)
    requires |keyBytes| == KeyLength
    requires state.config.isRegistered
    ensures RegisterUserWithAgent(state, keyBytes, outcome).state.config.isRegistered
  {
  }
}
