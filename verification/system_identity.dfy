/**
  `SystemIdentityService`: how the device identity is assembled.  Everything
  the service reads from the operating system (platform name, architecture,
  network interfaces, `/proc/self/cgroup`, `/etc/hostname`, the machine-id
  files, the persisted id file) is an input `HostEnv`; SHA-256 is an opaque
  function `hash` and `randomUUID` an input string.  Writing the new id back
  to disk is reported as an output instead of performed.
*/
module SystemIdentity {
  import opened Wrappers
  import opened JsText

  datatype DeviceDetails = DeviceDetails(
    platform: string,
    architecture: string,
    macAddress: string,
    ip: string,
    dockerId: string,
    id: string)

  datatype NetInterface = NetInterface(address: string, family: string, mac: string, internal: bool)

  /** The outcome of `existsSync` followed by `readFileSync`. */
  datatype FileRead = Missing | Content(text: string) | ReadError

  datatype HostEnv = HostEnv(
    processPlatform: string,
    arch: string,
    /** `os.networkInterfaces()` in key order; `None` when the call throws, and
        a `None` entry for a name whose list is undefined. */
    interfaces: Option<seq<Option<seq<NetInterface>>>>,
    cgroup: FileRead,
    hostname: FileRead,
    etcMachineId: FileRead,
    dbusMachineId: FileRead,
    persistedId: FileRead)

  const ZeroMac: string := "00:00:00:00:00:00"

  /* ---------- getPlatform ---------- */

  /** `getPlatform()`: the three known Node platform names get display names,
      every other name is "Unknown". */
  function Platform(processPlatform: string): (r: string)
    ensures r == "Windows" <==> processPlatform == "win32"
    ensures r == "Linux" <==> processPlatform == "linux"
    ensures r == "macOS" <==> processPlatform == "darwin"
    ensures r == "Unknown" <==> processPlatform !in {"win32", "linux", "darwin"}
  {
    match processPlatform
    case "win32" => "Windows"
    case "linux" => "Linux"
    case "darwin" => "macOS"
    case _ => "Unknown"
  }

  /* ---------- Network interfaces ---------- */

  function Group(g: Option<seq<NetInterface>>): seq<NetInterface> {
    match g
    case None => []
    case Some(list) => list
  }

  /** Every interface in the order the nested loops visit them. */
  function Candidates(groups: seq<Option<seq<NetInterface>>>): seq<NetInterface> {
    if |groups| == 0 then [] else Candidates(groups[..|groups| - 1]) + Group(groups[|groups| - 1])
  }

  lemma {:induction false} CandidatesPrefix(groups: seq<Option<seq<NetInterface>>>, g: nat)
    requires g <= |groups|
    ensures Candidates(groups[..g]) <= Candidates(groups)
    decreases |groups| - g
  {
    if g < |groups| {
      CandidatesPrefix(groups, g + 1);
      assert groups[..g + 1][..g] == groups[..g];
    } else {
      assert groups[..g] == groups;
    }
  }

  /** The first element of `xs` satisfying `p`, if any. */
  function FirstSatisfying(xs: seq<NetInterface>, p: NetInterface -> bool): (r: Option<NetInterface>)
    ensures r.None? <==> forall k :: 0 <= k < |xs| ==> !p(xs[k])
    ensures forall k :: 0 <= k < |xs| && p(xs[k]) && (forall j :: 0 <= j < k ==> !p(xs[j])) ==> r == Some(xs[k])
  {
    match FindIndex(xs, p)
    case Some(k) => Some(xs[k])
    case None => None
  }

  /** The nested `for ... of` loops of `getPrimaryMacAddress` and
      `getLocalIPAddress`, visiting the groups in order and skipping undefined
      ones, find exactly the first candidate satisfying `p`. */
  method FirstInterface(groups: seq<Option<seq<NetInterface>>>, p: NetInterface -> bool)
    returns (r: Option<NetInterface>)
    ensures r == FirstSatisfying(Candidates(groups), p)
  {
    var g := 0;
    while g < |groups|
      invariant 0 <= g <= |groups|
      invariant forall k :: 0 <= k < |Candidates(groups[..g])| ==> !p(Candidates(groups[..g])[k])
    {
      assert groups[..g + 1][..g] == groups[..g];
      if groups[g].Some? {
        var list := groups[g].value;
        var j := 0;
        while j < |list|
          invariant 0 <= j <= |list|
          invariant forall k :: 0 <= k < j ==> !p(list[k])
        {
          if p(list[j]) {
            CandidatesPrefix(groups, g + 1);
            var done := Candidates(groups[..g]);
            assert Candidates(groups[..g + 1]) == done + list;
            assert Candidates(groups)[|done| + j] == list[j];
            assert forall k :: 0 <= k < |done| + j ==> !p(Candidates(groups)[k]) by {
              forall k | 0 <= k < |done| + j ensures !p(Candidates(groups)[k]) {
                if k < |done| {
                  assert Candidates(groups)[k] == done[k];
                } else {
                  assert Candidates(groups)[k] == list[k - |done|];
                }
              }
            }
            return Some(list[j]);
          }
          j := j + 1;
        }
      }
      g := g + 1;
    }
    assert groups[..g] == groups;
    return None;
  }

  predicate UsableMac(i: NetInterface) {
    i.mac != "" && i.mac != ZeroMac
  }

  predicate UsableIPv4(i: NetInterface) {
    i.family == "IPv4" && !i.internal
  }

  /** `getPrimaryMacAddress()`: the MAC of the first interface whose MAC is
      non-empty and not all zero; "" when there is none or enumeration fails. */
  function PrimaryMacAddress(interfaces: Option<seq<Option<seq<NetInterface>>>>): (mac: string)
    ensures interfaces.None? ==> mac == ""
    ensures interfaces.Some? ==>
              (mac == "" <==> forall k :: 0 <= k < |Candidates(interfaces.value)| ==> !UsableMac(Candidates(interfaces.value)[k]))
    ensures interfaces.Some? ==>
              forall k :: 0 <= k < |Candidates(interfaces.value)| && UsableMac(Candidates(interfaces.value)[k])
                          && (forall j :: 0 <= j < k ==> !UsableMac(Candidates(interfaces.value)[j]))
                          ==> mac == Candidates(interfaces.value)[k].mac
    ensures mac != ZeroMac
  {
    if interfaces.None? then ""
    else match FirstSatisfying(Candidates(interfaces.value), UsableMac)
      case Some(i) => i.mac
      case None => ""
  }

  /** `getLocalIPAddress()`: the address of the first external IPv4 interface;
      "" when there is none or enumeration fails. */
  function LocalIPAddress(interfaces: Option<seq<Option<seq<NetInterface>>>>): (ip: string)
    ensures interfaces.None? ==> ip == ""
    ensures interfaces.Some? ==>
              forall k :: 0 <= k < |Candidates(interfaces.value)| && UsableIPv4(Candidates(interfaces.value)[k])
                          && (forall j :: 0 <= j < k ==> !UsableIPv4(Candidates(interfaces.value)[j]))
                          ==> ip == Candidates(interfaces.value)[k].address
    ensures interfaces.Some? ==>
              ((forall k :: 0 <= k < |Candidates(interfaces.value)| ==> !UsableIPv4(Candidates(interfaces.value)[k])) ==> ip == "")
  {
    if interfaces.None? then ""
    else match FirstSatisfying(Candidates(interfaces.value), UsableIPv4)
      case Some(i) => i.address
      case None => ""
  }

  /* ---------- Docker container id ---------- */

  /** `/([a-f0-9]{64})/i` matches at `i`. */
  predicate HexRunAt(text: string, i: nat) {
    i + 64 <= |text| && AllHex(text[i..i + 64])
  }

  /** The leftmost 64-character hexadecimal run of `text` at or after `i`. */
  function FirstHexRunFrom(text: string, i: nat): (r: Option<string>)
    requires i <= |text|
    ensures r.None? <==> forall j :: i <= j <= |text| ==> !HexRunAt(text, j)
    ensures forall k :: i <= k <= |text| && HexRunAt(text, k) && (forall j :: i <= j < k ==> !HexRunAt(text, j))
                        ==> r == Some(text[k..k + 64])
    ensures r.Some? ==> |r.value| == 64 && AllHex(r.value)
    decreases |text| - i
  {
    if i + 64 > |text| then None
    else if AllHex(text[i..i + 64]) then
      assert HexRunAt(text, i);
      Some(text[i..i + 64])
    else FirstHexRunFrom(text, i + 1)
  }

  /** The leftmost 64-character hexadecimal run of `text`, if any: what
      `text.match(/([a-f0-9]{64})/i)` captures. */
  function FirstHexRun(text: string): (r: Option<string>)
    ensures r.None? <==> forall i :: 0 <= i <= |text| ==> !HexRunAt(text, i)
    ensures forall k :: 0 <= k <= |text| && HexRunAt(text, k) && (forall j :: 0 <= j < k ==> !HexRunAt(text, j))
                        ==> r == Some(text[k..k + 64])
    ensures r.Some? ==> |r.value| == 64 && AllHex(r.value)
  {
    FirstHexRunFrom(text, 0)
  }

  /** The scan of the regular-expression engine, left to right over the
      start positions, finds the same run. */
  method ScanHexRun(text: string) returns (r: Option<string>)
    ensures r == FirstHexRun(text)
  {
    var i := 0;
    while i + 64 <= |text|
      invariant 0 <= i <= |text|
      invariant forall j :: 0 <= j < i ==> !HexRunAt(text, j)
    {
      if AllHex(text[i..i + 64]) {
        assert HexRunAt(text, i);
        return Some(text[i..i + 64]);
      }
      i := i + 1;
    }
    return None;
  }

  /** `/^[a-f0-9]{12,64}$/i`: a hostname that looks like a container id. */
  predicate IsContainerHostname(h: string) {
    12 <= |h| <= 64 && AllHex(h)
  }

  /** The hostname test of `getDockerContainerId`, after `/proc/self/cgroup`
      gave nothing. */
  function HostnameContainerId(hostname: FileRead): (r: string)
    ensures r != "" ==> hostname.Content? && r == Trim(hostname.text) && IsContainerHostname(r)
    ensures hostname.Content? && IsContainerHostname(Trim(hostname.text)) ==> r == Trim(hostname.text)
  {
    match hostname
    case Content(text) => if IsContainerHostname(Trim(text)) then Trim(text) else ""
    case _ => ""
  }

  /** `getDockerContainerId()`: the first 64-hex run of the cgroup file, else a
      container-like hostname, else ""; a failed read ends the search with "". */
  function DockerContainerId(cgroup: FileRead, hostname: FileRead): (id: string)
    ensures cgroup.ReadError? ==> id == ""
    ensures cgroup.Content? ==>
              forall k :: 0 <= k <= |cgroup.text| && HexRunAt(cgroup.text, k)
                          && (forall j :: 0 <= j < k ==> !HexRunAt(cgroup.text, j))
                          ==> id == cgroup.text[k..k + 64]
    ensures (cgroup.Missing? || (cgroup.Content? && forall i :: 0 <= i <= |cgroup.text| ==> !HexRunAt(cgroup.text, i)))
              ==> id == HostnameContainerId(hostname)
    ensures id == "" || (12 <= |id| <= 64 && AllHex(id))
  {
    if cgroup.ReadError? then ""
    else if cgroup.Content? && FirstHexRun(cgroup.text).Some? then FirstHexRun(cgroup.text).value
    else HostnameContainerId(hostname)
  }

  /* ---------- Stable sources ---------- */

  /** `getLinuxMachineId()`: on Linux, the first of `/etc/machine-id` and
      `/var/lib/dbus/machine-id` that exists and is non-empty after trimming;
      a failed read ends the search with "". */
  function LinuxMachineId(processPlatform: string, etcMachineId: FileRead, dbusMachineId: FileRead): (r: string)
    ensures processPlatform != "linux" ==> r == ""
    ensures etcMachineId.ReadError? ==> r == ""
    ensures (processPlatform == "linux" && etcMachineId.Content? && Trim(etcMachineId.text) != "") ==>
              r == Trim(etcMachineId.text)
    ensures processPlatform == "linux" && (etcMachineId.Missing? || (etcMachineId.Content? && Trim(etcMachineId.text) == "")) ==>
              r == TrimmedContent(dbusMachineId)
    ensures r != "" ==>
              && processPlatform == "linux"
              && ((etcMachineId.Content? && r == Trim(etcMachineId.text))
                  || (dbusMachineId.Content? && r == Trim(dbusMachineId.text)))
  {
    if processPlatform != "linux" then ""
    else match etcMachineId
      case ReadError => ""
      case Content(text) =>
        if Trim(text) != "" then Trim(text) else TrimmedContent(dbusMachineId)
      case Missing => TrimmedContent(dbusMachineId)
  }

  /** `getWindowsMachineGuid()`: the registry is not read, so always "". */
  function WindowsMachineGuid(): string {
    ""
  }

  /** A file read the way `readTrimmedContent()` and the machine-id search read
      theirs: the trimmed content, "" when the file is missing or unreadable. */
  function TrimmedContent(file: FileRead): (r: string)
    ensures file.Content? ==> r == Trim(file.text)
    ensures !file.Content? ==> r == ""
  {
    match file
    case Content(text) => Trim(text)
    case _ => ""
  }

  /** The `||` chain choosing the best stable source: the first non-empty of
      docker id, Linux machine id, Windows GUID and MAC, else a generated one. */
  function BestStable(dockerId: string, machineId: string, macAddress: string, uuid: string): (r: string)
    ensures r != ""
    ensures dockerId != "" ==> r == dockerId
    ensures dockerId == "" && machineId != "" ==> r == machineId
    ensures dockerId == "" && machineId == "" && macAddress != "" ==> r == macAddress
    ensures dockerId == "" && machineId == "" && macAddress == "" ==> r == "gen:" + uuid
  {
    var best := if dockerId != "" then dockerId
                else if machineId != "" then machineId
                else if WindowsMachineGuid() != "" then WindowsMachineGuid()
                else macAddress;
    if best == "" then "gen:" + uuid else best
  }

  /** The string that is hashed into a fresh device id. */
  function HashInput(platform: string, architecture: string, source: string): string {
    platform + "|" + architecture + "|" + source
  }

  /** The device details, and the id written back to the persisted-id file
      when a new one was derived. */
  datatype Identity = Identity(info: DeviceDetails, written: Option<string>)

  /** `updateSystemIdentityInfo()`: collects the details from the host; a
      non-empty persisted id is used verbatim, otherwise the id is the hash of
      platform, architecture and the best stable source, and that id is
      written back. */
  function UpdateSystemIdentityInfo(env: HostEnv, hash: string -> string, uuid: string): (r: Identity)
    ensures r.info.platform == Platform(env.processPlatform)
    ensures r.info.architecture == env.arch
    ensures r.info.macAddress == PrimaryMacAddress(env.interfaces)
    ensures r.info.ip == LocalIPAddress(env.interfaces)
    ensures r.info.dockerId == DockerContainerId(env.cgroup, env.hostname)
    ensures TrimmedContent(env.persistedId) != "" ==>
              r.info.id == TrimmedContent(env.persistedId) && r.written == None
    ensures TrimmedContent(env.persistedId) == "" ==>
              r.info.id == hash(r.info.platform + "|" + r.info.architecture + "|"
                                + BestStable(r.info.dockerId,
                                             LinuxMachineId(env.processPlatform, env.etcMachineId, env.dbusMachineId),
                                             r.info.macAddress, uuid))
              && r.written == Some(r.info.id)
  {
    var platform := Platform(env.processPlatform);
    var mac := PrimaryMacAddress(env.interfaces);
    var docker := DockerContainerId(env.cgroup, env.hostname);
    var info := DeviceDetails(platform, env.arch, mac, LocalIPAddress(env.interfaces), docker, "");
    var persisted := TrimmedContent(env.persistedId);
    if persisted != "" then
      Identity(info.(id := persisted), None)
    else
      var best := BestStable(docker, LinuxMachineId(env.processPlatform, env.etcMachineId, env.dbusMachineId), mac, uuid);
      var id := hash(HashInput(platform, env.arch, best));
      Identity(info.(id := id), Some(id))
  }

  /** The id is stable across restarts: once the id of a run is in the
      persisted-id file, the next run reports the same details, whatever
      random UUID it draws, and writes nothing.  This needs the hash to
      produce hex digests, as SHA-256's `digest("hex")` does. */
  lemma {:induction false} IdentityIsStable(env: HostEnv, hash: string -> string, uuid: string, nextUuid: string)
    requires forall x :: |hash(x)| == 64 && AllHex(hash(x))
    ensures var first := UpdateSystemIdentityInfo(env, hash, uuid);
            var second := UpdateSystemIdentityInfo(env.(persistedId := Content(first.info.id)), hash, nextUuid);
            second.info == first.info && second.written == None
  {
    var first := UpdateSystemIdentityInfo(env, hash, uuid);
    var id := first.info.id;
    if TrimmedContent(env.persistedId) != "" {
      TrimIdempotent(env.persistedId.text);
    } else {
      HexHasNoSpace(id);
      TrimKeeps(id);
    }
    assert TrimmedContent(Content(id)) == id;
  }

  /** A hex digit is not whitespace. */
  lemma HexHasNoSpace(s: string)
    requires |s| > 0 && AllHex(s)
    ensures !IsJsWhitespace(s[0]) && !IsJsWhitespace(s[|s| - 1])
  {
  }
}
