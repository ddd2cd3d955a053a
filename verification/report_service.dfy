/**
  The in-memory telemetry report (`reportService`) and its four mutators.
  The report is an immutable value here; each mutator returns the new report.
  The clock is a parameter `now` (the ISO time string the source reads from
  `new Date()`).  Every mutator ends with `saveReport()`, whose changes to the
  report itself are modelled by `Saved`; writing the file is not.
*/
module ReportService {
  import opened Wrappers
  import opened JsText

  datatype SyncEntry = SyncEntry(on: string, isSuccess: bool, message: string)

  datatype RuleReport = RuleReport(
    name: string,
    pattern: string,
    matchCount: int,
    isMask: bool,
    isEncrypt: bool,
    error: Option<string>,
    lastProcessed: Option<string>)

  datatype FileReport = FileReport(fileType: string, count: int, lastProcessed: string)

  datatype OperationReport = OperationReport(
    agentId: string,
    reportType: string,
    platform: Option<string>,
    accountId: string,
    deviceId: Option<string>,
    sync: seq<SyncEntry>,
    rules: seq<RuleReport>,
    files: seq<FileReport>,
    reportOn: string)

  /** The identity fields that `saveReport()` never touches are the same in
      both reports. */
  predicate SameIdentity(a: OperationReport, b: OperationReport) {
    a.reportType == b.reportType && a.platform == b.platform
    && a.accountId == b.accountId && a.deviceId == b.deviceId
  }

  /** The agent id a save leaves: the report's own, or the fallback when the
      report's is empty. */
  function SavedAgentId(report: OperationReport, fallbackAgentId: string): string {
    if report.agentId != "" then report.agentId else fallbackAgentId
  }

  /** `r`'s header is `report`'s after a save: the identity fields are kept,
      the agent id is filled if it was empty, and `reportOn` is `now` whenever
      there is an agent id (otherwise `stamp`, what the mutator left there). */
  predicate SavedHeader(r: OperationReport, report: OperationReport, fallbackAgentId: string,
                        stamp: string, now: string) {
    && SameIdentity(r, report)
    && r.agentId == SavedAgentId(report, fallbackAgentId)
    && r.reportOn == (if r.agentId != "" then now else stamp)
  }

  /* ---------- saveReport ---------- */

  /** The part of `saveReport()` that changes the report: an empty `agentId`
      is filled from `fallbackAgentId` (what `agentStore.agent?.agentId ??
      configStore.agentId` gives); with an agent id the report is stamped with
      `now`, without one the save gives up and the report is left as it is. */
  function Saved(report: OperationReport, fallbackAgentId: string, now: string): (r: OperationReport)
    ensures SavedHeader(r, report, fallbackAgentId, report.reportOn, now)
    ensures r.sync == report.sync && r.rules == report.rules && r.files == report.files
    ensures r.agentId == "" ==> r == report
  {
    var agentId := SavedAgentId(report, fallbackAgentId);
    if agentId == "" then report else report.(agentId := agentId, reportOn := now)
  }

  /** Once a report carries an agent id, later saves keep it, whatever the
      fallback, and only restamp the report. */
  lemma SavedKeepsAgentId(report: OperationReport, fallback1: string, fallback2: string, now1: string, now2: string)
    requires Saved(report, fallback1, now1).agentId != ""
    ensures Saved(Saved(report, fallback1, now1), fallback2, now2)
         == Saved(report, fallback1, now1).(reportOn := now2)
  {
  }

  /* ---------- Keys ---------- */

  predicate HasRule(rules: seq<RuleReport>, name: string) {
    exists i :: 0 <= i < |rules| && rules[i].name == name
  }

  predicate HasFile(files: seq<FileReport>, fileType: string) {
    exists i :: 0 <= i < |files| && files[i].fileType == fileType
  }

  /** At most one rule record per rule name. */
  predicate DistinctRuleNames(rules: seq<RuleReport>) {
    forall i, j :: 0 <= i < j < |rules| ==> rules[i].name != rules[j].name
  }

  /** At most one file record per file type. */
  predicate DistinctFileTypes(files: seq<FileReport>) {
    forall i, j :: 0 <= i < j < |files| ==> files[i].fileType != files[j].fileType
  }

  /** The match count the report shows for `name`: that of the first record
      carrying the name (the one `find` returns), 0 when there is none. */
  function RuleCount(rules: seq<RuleReport>, name: string): int {
    if |rules| == 0 then 0
    else if rules[0].name == name then rules[0].matchCount
    else RuleCount(rules[1..], name)
  }

  /** The file count the report shows for `fileType`, read the same way. */
  function FileCount(files: seq<FileReport>, fileType: string): int {
    if |files| == 0 then 0
    else if files[0].fileType == fileType then files[0].count
    else FileCount(files[1..], fileType)
  }

  /* ---------- addSync ---------- */

  /** `addSync(isSuccess, message)`: one entry appended at the end of the
      sync log, then the report is saved. */
  function AddSync(report: OperationReport, isSuccess: bool, message: string, fallbackAgentId: string,
                   now: string): (r: OperationReport)
    ensures |r.sync| == |report.sync| + 1
    ensures r.sync[..|report.sync|] == report.sync
    ensures r.sync[|report.sync|] == SyncEntry(now, isSuccess, message)
    ensures r.rules == report.rules && r.files == report.files
    ensures SavedHeader(r, report, fallbackAgentId, report.reportOn, now)
  {
    Saved(report.(sync := report.sync + [SyncEntry(now, isSuccess, message)]), fallbackAgentId, now)
  }

  /* ---------- addRuleResult ---------- */

  /** `if (rule.error)`: an error string counts only when present and non-empty. */
  predicate CarriesError(error: Option<string>) {
    error.Some? && error.value != ""
  }

  /** `addRuleResult(rule)`: merge into the first record with the same name,
      adding the count, stamping the time and taking the incoming error only
      when it carries one; a rule whose name is new is appended.  Then the
      report is saved. */
  function AddRuleResult(report: OperationReport, rule: RuleReport, fallbackAgentId: string,
                         now: string): (r: OperationReport)
    ensures r.sync == report.sync && r.files == report.files
    ensures SavedHeader(r, report, fallbackAgentId, report.reportOn, now)
    ensures !HasRule(report.rules, rule.name) ==>
              r.rules == report.rules + [rule.(lastProcessed := Some(now))]
    ensures HasRule(report.rules, rule.name) ==>
              |r.rules| == |report.rules| &&
              exists i :: 0 <= i < |report.rules| && report.rules[i].name == rule.name
                && (forall j :: 0 <= j < i ==> report.rules[j].name != rule.name)
                && r.rules[i].matchCount == report.rules[i].matchCount + rule.matchCount
                && r.rules[i].error == (if CarriesError(rule.error) then rule.error else report.rules[i].error)
                && r.rules[i].lastProcessed == Some(now)
                && r.rules[i].name == report.rules[i].name
                && r.rules[i].pattern == report.rules[i].pattern
                && r.rules[i].isMask == report.rules[i].isMask
                && r.rules[i].isEncrypt == report.rules[i].isEncrypt
                && forall j :: 0 <= j < |report.rules| && j != i ==> r.rules[j] == report.rules[j]
  {
    var rules := match FindIndex(report.rules, (x: RuleReport) => x.name == rule.name)
      case Some(i) =>
        var existing := report.rules[i];
        var merged := existing.(
          matchCount := existing.matchCount + rule.matchCount,
          lastProcessed := Some(now),
          error := if CarriesError(rule.error) then rule.error else existing.error);
        report.rules[i := merged]
      case None =>
        report.rules + [rule.(lastProcessed := Some(now))];
    Saved(report.(rules := rules), fallbackAgentId, now)
  }

  /* ---------- addFileCount ---------- */

  /** `type.replace(/^\./, "")`: at most one leading dot removed, nothing else
      (no case folding). */
  function CleanType(fileType: string): (r: string)
    ensures |fileType| > 0 && fileType[0] == '.' ==> fileType == "." + r
    ensures (|fileType| == 0 || fileType[0] != '.') ==> r == fileType
  {
    if |fileType| > 0 && fileType[0] == '.' then fileType[1..] else fileType
  }

  /** The file list after `addFileCount` for the cleaned type `key`. */
  function MergeFile(files: seq<FileReport>, key: string, count: int, now: string): seq<FileReport> {
    match FindIndex(files, (f: FileReport) => f.fileType == key)
    case Some(i) => files[i := files[i].(lastProcessed := now, count := files[i].count + count)]
    case None => files + [FileReport(key, count, now)]
  }

  /** `addFileCount(type, count)`: add to the first record for the cleaned type,
      or append a fresh record holding `count`; then the report is saved. */
  function AddFileCount(report: OperationReport, fileType: string, count: int, fallbackAgentId: string,
                        now: string): (r: OperationReport)
    ensures r.sync == report.sync && r.rules == report.rules
    ensures r.files == MergeFile(report.files, CleanType(fileType), count, now)
    ensures SavedHeader(r, report, fallbackAgentId, report.reportOn, now)
    ensures !HasFile(report.files, CleanType(fileType)) ==>
              r.files == report.files + [FileReport(CleanType(fileType), count, now)]
    ensures HasFile(report.files, CleanType(fileType)) ==>
              |r.files| == |report.files| &&
              exists i :: 0 <= i < |report.files| && report.files[i].fileType == CleanType(fileType)
                && (forall j :: 0 <= j < i ==> report.files[j].fileType != CleanType(fileType))
                && r.files[i] == FileReport(CleanType(fileType), report.files[i].count + count, now)
                && forall j :: 0 <= j < |report.files| && j != i ==> r.files[j] == report.files[j]
  {
    Saved(report.(files := MergeFile(report.files, CleanType(fileType), count, now)), fallbackAgentId, now)
  }

  /* ---------- clearReport ---------- */

  /** `clearReport()`: empties the three collections and restamps `reportOn`,
      then saves the report; the identity fields are kept. */
  function ClearReport(report: OperationReport, fallbackAgentId: string, now: string): (r: OperationReport)
    ensures r.sync == [] && r.rules == [] && r.files == []
    ensures r.reportOn == now
    ensures SavedHeader(r, report, fallbackAgentId, now, now)
  {
    Saved(report.(sync := [], rules := [], files := [], reportOn := now), fallbackAgentId, now)
  }

  /* ---------- Properties ---------- */

  /** Read through the first-record view, `addRuleResult` adds the incoming
      count to the named rule and changes no other rule's count. */
  lemma {:induction false} RuleCountAfterAdd(report: OperationReport, rule: RuleReport, fallbackAgentId: string, now: string,
                                                   name: string)
    ensures RuleCount(AddRuleResult(report, rule, fallbackAgentId, now).rules, name)
         == RuleCount(report.rules, name) + (if name == rule.name then rule.matchCount else 0)
  {
    var r := AddRuleResult(report, rule, fallbackAgentId, now);
    if HasRule(report.rules, rule.name) {
      var i :| 0 <= i < |report.rules| && report.rules[i].name == rule.name
                && (forall j :: 0 <= j < i ==> report.rules[j].name != rule.name)
                && r.rules[i].matchCount == report.rules[i].matchCount + rule.matchCount
                && r.rules[i].name == report.rules[i].name
                && forall j :: 0 <= j < |report.rules| && j != i ==> r.rules[j] == report.rules[j];
      RuleCountUpdate(report.rules, report.rules, i, rule.name);
      RuleCountUpdate(report.rules, r.rules, i, name);
    } else {
      RuleCountAppend(report.rules, rule.(lastProcessed := Some(now)), name);
    }
  }

  lemma {:induction false} RuleCountUpdate(a: seq<RuleReport>, b: seq<RuleReport>, i: nat, name: string)
    requires |a| == |b| && i < |a|
    requires a[i].name == b[i].name
    requires forall j :: 0 <= j < |a| && j != i ==> b[j] == a[j]
    requires forall j :: 0 <= j < i ==> a[j].name != a[i].name
    ensures RuleCount(b, name) == if name == a[i].name then b[i].matchCount else RuleCount(a, name)
    decreases i
  {
    if i == 0 {
      assert b[1..] == a[1..];
    } else {
      assert b[0] == a[0];
      if a[0].name != name {
        RuleCountUpdate(a[1..], b[1..], i - 1, name);
      }
    }
  }

  lemma {:induction false} RuleCountAppend(a: seq<RuleReport>, x: RuleReport, name: string)
    requires !HasRule(a, x.name)
    ensures RuleCount(a + [x], name) == RuleCount(a, name) + (if name == x.name then x.matchCount else 0)
    decreases |a|
  {
    if |a| == 0 {
      assert a + [x] == [x];
    } else {
      assert (a + [x])[1..] == a[1..] + [x];
      if a[0].name != name {
        assert !HasRule(a[1..], x.name) by {
          forall j | 0 <= j < |a[1..]| ensures a[1..][j].name != x.name { assert a[1..][j] == a[j + 1]; }
        }
        RuleCountAppend(a[1..], x, name);
      } else {
        assert a[0].name != x.name;
      }
    }
  }

  /** The same for files: `addFileCount` adds `count` to the cleaned type and
      to no other type. */
  lemma {:induction false} FileCountAfterAdd(report: OperationReport, fileType: string, count: int, fallbackAgentId: string,
                                                   now: string, key: string)
    ensures FileCount(AddFileCount(report, fileType, count, fallbackAgentId, now).files, key)
         == FileCount(report.files, key) + (if key == CleanType(fileType) then count else 0)
  {
    FileCountAfterMerge(report.files, CleanType(fileType), count, now, key);
  }

  lemma FileCountAfterMerge(files: seq<FileReport>, clean: string, count: int, now: string, key: string)
    ensures FileCount(MergeFile(files, clean, count, now), key)
         == FileCount(files, key) + (if key == clean then count else 0)
  {
    match FindIndex(files, (f: FileReport) => f.fileType == clean)
    case Some(i) =>
      FileCountUpdate(files, files, i, clean);
      FileCountUpdate(files, MergeFile(files, clean, count, now), i, key);
    case None =>
      FileCountAppend(files, FileReport(clean, count, now), key);
  }

  lemma {:induction false} FileCountUpdate(a: seq<FileReport>, b: seq<FileReport>, i: nat, key: string)
    requires |a| == |b| && i < |a|
    requires a[i].fileType == b[i].fileType
    requires forall j :: 0 <= j < |a| && j != i ==> b[j] == a[j]
    requires forall j :: 0 <= j < i ==> a[j].fileType != a[i].fileType
    ensures FileCount(b, key) == if key == a[i].fileType then b[i].count else FileCount(a, key)
    decreases i
  {
    if i == 0 {
      assert b[1..] == a[1..];
    } else {
      assert b[0] == a[0];
      if a[0].fileType != key {
        FileCountUpdate(a[1..], b[1..], i - 1, key);
      }
    }
  }

  lemma {:induction false} FileCountAppend(a: seq<FileReport>, x: FileReport, key: string)
    requires !HasFile(a, x.fileType)
    ensures FileCount(a + [x], key) == FileCount(a, key) + (if key == x.fileType then x.count else 0)
    decreases |a|
  {
    if |a| == 0 {
      assert a + [x] == [x];
    } else {
      assert (a + [x])[1..] == a[1..] + [x];
      if a[0].fileType != key {
        assert !HasFile(a[1..], x.fileType) by {
          forall j | 0 <= j < |a[1..]| ensures a[1..][j].fileType != x.fileType { assert a[1..][j] == a[j + 1]; }
        }
        FileCountAppend(a[1..], x, key);
      } else {
        assert a[0].fileType != x.fileType;
      }
    }
  }

  /** One record per key is kept by every mutator. */
  lemma DistinctKeysPreserved(report: OperationReport, rule: RuleReport, fileType: string, count: int,
                              isSuccess: bool, message: string, fallbackAgentId: string, now: string)
    requires DistinctRuleNames(report.rules) && DistinctFileTypes(report.files)
    ensures DistinctRuleNames(AddRuleResult(report, rule, fallbackAgentId, now).rules)
    ensures DistinctFileTypes(AddFileCount(report, fileType, count, fallbackAgentId, now).files)
    ensures DistinctRuleNames(AddSync(report, isSuccess, message, fallbackAgentId, now).rules)
    ensures DistinctFileTypes(AddSync(report, isSuccess, message, fallbackAgentId, now).files)
    ensures DistinctRuleNames(ClearReport(report, fallbackAgentId, now).rules)
    ensures DistinctFileTypes(ClearReport(report, fallbackAgentId, now).files)
  {
    RuleNamesStayDistinct(report, rule, fallbackAgentId, now);
    FileTypesStayDistinct(report.files, CleanType(fileType), count, now);
  }

  lemma RuleNamesStayDistinct(report: OperationReport, rule: RuleReport, fallbackAgentId: string, now: string)
    requires DistinctRuleNames(report.rules)
    ensures DistinctRuleNames(AddRuleResult(report, rule, fallbackAgentId, now).rules)
  {
    var r := AddRuleResult(report, rule, fallbackAgentId, now);
    if !HasRule(report.rules, rule.name) {
      assert forall j :: 0 <= j < |report.rules| ==> r.rules[j] == report.rules[j];
    }
  }

  lemma FileTypesStayDistinct(files: seq<FileReport>, clean: string, count: int, now: string)
    requires DistinctFileTypes(files)
    ensures DistinctFileTypes(MergeFile(files, clean, count, now))
  {
    var f := MergeFile(files, clean, count, now);
    if FindIndex(files, (x: FileReport) => x.fileType == clean).None? {
      assert forall j :: 0 <= j < |files| ==> f[j] == files[j];
    }
  }

  /** With non-negative increments no key disappears and no count goes down. */
  lemma CountsNeverDecrease(report: OperationReport, rule: RuleReport, fileType: string, count: int,
                            fallbackAgentId: string, now: string, name: string, key: string)
    requires rule.matchCount >= 0 && count >= 0
    ensures HasRule(report.rules, name) ==> HasRule(AddRuleResult(report, rule, fallbackAgentId, now).rules, name)
    ensures HasFile(report.files, key) ==> HasFile(AddFileCount(report, fileType, count, fallbackAgentId, now).files, key)
    ensures RuleCount(AddRuleResult(report, rule, fallbackAgentId, now).rules, name) >= RuleCount(report.rules, name)
    ensures FileCount(AddFileCount(report, fileType, count, fallbackAgentId, now).files, key) >= FileCount(report.files, key)
  {
    RuleCountAfterAdd(report, rule, fallbackAgentId, now, name);
    FileCountAfterAdd(report, fileType, count, fallbackAgentId, now, key);
    RuleKeysKept(report, rule, fallbackAgentId, now, name);
    FileKeysKept(report, fileType, count, fallbackAgentId, now, key);
  }

  lemma RuleKeysKept(report: OperationReport, rule: RuleReport, fallbackAgentId: string, now: string, name: string)
    ensures HasRule(report.rules, name) ==> HasRule(AddRuleResult(report, rule, fallbackAgentId, now).rules, name)
  {
    var r := AddRuleResult(report, rule, fallbackAgentId, now);
    if HasRule(report.rules, name) {
      var k :| 0 <= k < |report.rules| && report.rules[k].name == name;
      if HasRule(report.rules, rule.name) {
        assert r.rules[k].name == name;
      } else {
        assert r.rules[k] == report.rules[k];
      }
    }
  }

  lemma FileKeysKept(report: OperationReport, fileType: string, count: int, fallbackAgentId: string,
                     now: string, key: string)
    ensures HasFile(report.files, key) ==> HasFile(AddFileCount(report, fileType, count, fallbackAgentId, now).files, key)
  {
    var f := AddFileCount(report, fileType, count, fallbackAgentId, now);
    if HasFile(report.files, key) {
      var k :| 0 <= k < |report.files| && report.files[k].fileType == key;
      if HasFile(report.files, CleanType(fileType)) {
        assert f.files[k].fileType == key;
      } else {
        assert f.files[k] == report.files[k];
      }
    }
  }

  /** Reporting the same rule twice into a report that lacks it leaves exactly
      one record for it, holding the sum of the two counts. */
  lemma SameRuleTwice(report: OperationReport, rule: RuleReport, fallbackAgentId: string, now1: string, now2: string)
    requires DistinctRuleNames(report.rules)
    requires !HasRule(report.rules, rule.name)
    ensures var r := AddRuleResult(AddRuleResult(report, rule, fallbackAgentId, now1), rule, fallbackAgentId, now2);
            |r.rules| == |report.rules| + 1
            && r.rules[|report.rules|].name == rule.name
            && r.rules[|report.rules|].matchCount == 2 * rule.matchCount
            && forall j :: 0 <= j < |report.rules| ==> r.rules[j].name != rule.name
  {
    var r1 := AddRuleResult(report, rule, fallbackAgentId, now1);
    assert r1.rules[|report.rules|].name == rule.name;
    assert HasRule(r1.rules, rule.name);
    var r2 := AddRuleResult(r1, rule, fallbackAgentId, now2);
    var i :| 0 <= i < |r1.rules| && r1.rules[i].name == rule.name
              && (forall j :: 0 <= j < i ==> r1.rules[j].name != rule.name)
              && r2.rules[i].matchCount == r1.rules[i].matchCount + rule.matchCount
              && r2.rules[i].name == r1.rules[i].name
              && forall j :: 0 <= j < |r1.rules| && j != i ==> r2.rules[j] == r1.rules[j];
    assert forall j :: 0 <= j < |report.rules| ==> r1.rules[j] == report.rules[j];
    assert i == |report.rules|;
  }
}
