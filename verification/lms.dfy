/** The LMS façade (`lms`) and its two drivers: the SCORM 1.2 adapter,
    which talks to the host LMS through the `pipwerks.SCORM` wrapper, and
    the local-storage adapter used in standalone mode. The wrapper is an
    abstract key/value store whose writes succeed or fail as an oracle
    says; browser local storage is another key/value store. */
module Lms {
  import opened Optional
  import opened Text

  // ---------------------------------------------------------------------
  // the SCORM 1.2 adapter

  /** How the host LMS answers during one call: whether `set` is accepted,
      the error code it then reports, and whether `save` (the commit)
      succeeds. */
  datatype ScormOracle = ScormOracle(setSucceeds: bool, errorCode: string, commitSucceeds: bool)

  /** `_saveLimit`: the longest `cmi.suspend_data` the adapter writes. */
  const SaveLimit: nat := 4095

  /** `_validStatusValues`: the six values the SCORM 1.2 run-time data
      model allows for `cmi.core.lesson_status`. */
  const ValidStatusValues: seq<string> := ["passed", "completed", "failed", "incomplete", "browsed", "not attempted"]

  /** `_dataOverLimit(data, limit)`: the data's `length`, counted in UTF-16
      code units, exceeds the limit (a length within 10% of the limit only
      produces a console warning). */
  predicate DataOverLimit(data: string, limit: nat)
  {
    Utf16Length(data) > limit
  }

  datatype Written = Written(store: map<string, string>, ok: bool)

  /** `_set(key, value)`: the wrapper stores the value when it accepts the
      write; a refused write still reports true when the wrapper's error
      code is "0". */
  function ScormSet(store: map<string, string>, key: string, value: string, o: ScormOracle): (r: Written)
    ensures o.setSucceeds ==> r.ok && r.store == store[key := value]
    ensures !o.setSucceeds ==> r.store == store && (r.ok <==> o.errorCode == "0")
  {
    if o.setSucceeds then Written(store[key := value], true)
    else Written(store, o.errorCode == "0")
  }

  /** `Scorm12Adapter.saveData(data)`: rejects data over the limit without
      writing; otherwise writes `cmi.suspend_data` (and commits). */
  function ScormSaveData(store: map<string, string>, data: string, o: ScormOracle): (r: Written)
  {
    if DataOverLimit(data, SaveLimit) then Written(store, false)
    else ScormSet(store, "cmi.suspend_data", data, o)
  }

  /** Save data longer than 4095 UTF-16 code units is refused and nothing
      is written; save data up to that length is written whenever the LMS
      accepts the write. */
  lemma SaveDataLimit(store: map<string, string>, data: string, o: ScormOracle)
    ensures Utf16Length(data) > 4095 ==> ScormSaveData(store, data, o) == Written(store, false)
    ensures Utf16Length(data) <= 4095 && o.setSucceeds ==>
              ScormSaveData(store, data, o) == Written(store["cmi.suspend_data" := data], true)
  {
  }

  /** A save of ASCII (or any Basic Multilingual Plane) text, such as a
      `CGZ` frame, is limited to 4095 characters. */
  lemma BmpSaveLimit(store: map<string, string>, data: string, o: ScormOracle)
    requires forall i :: 0 <= i < |data| ==> data[i] as int < 0x10000
    ensures |data| > 4095 ==> ScormSaveData(store, data, o) == Written(store, false)
    ensures |data| <= 4095 && o.setSucceeds ==>
              ScormSaveData(store, data, o) == Written(store["cmi.suspend_data" := data], true)
  {
    Utf16LengthOfBmp(data);
  }

  /** Emoji count twice: 2048 of them are 4096 code units, so the save is
      refused although it has fewer than 4095 characters. */
  lemma EmojiSaveRefused(store: map<string, string>, data: string, o: ScormOracle)
    requires |data| == 2048 && forall i :: 0 <= i < |data| ==> data[i] == '\U{1F600}'
    ensures ScormSaveData(store, data, o) == Written(store, false)
  {
    Utf16LengthOfAstral(data);
  }

  /** `Scorm12Adapter.setStatus(status)`: a value outside the six valid
      ones is refused without writing; a valid one is written to
      `cmi.core.lesson_status`. */
  function ScormSetStatus(store: map<string, string>, status: string, o: ScormOracle): (r: Written)
    ensures status !in ValidStatusValues ==> r == Written(store, false)
    ensures status in ValidStatusValues && o.setSucceeds ==>
              r == Written(store["cmi.core.lesson_status" := status], true)
  {
    if status !in ValidStatusValues then Written(store, false)
    else ScormSet(store, "cmi.core.lesson_status", status, o)
  }

  /** "unknown", which `init` treats like "not attempted", is not a value
      the adapter writes; "browsed" is. */
  lemma StatusValues(store: map<string, string>, o: ScormOracle)
    requires o.setSucceeds
    ensures !ScormSetStatus(store, "unknown", o).ok
    ensures ScormSetStatus(store, "browsed", o).store["cmi.core.lesson_status"] == "browsed"
  {
    assert "unknown" != ValidStatusValues[0] && "unknown" != ValidStatusValues[5];
    assert ValidStatusValues[4] == "browsed";
  }

  /** `Scorm12Adapter.init()`: a course that has not been attempted (or
      whose status is unknown) is marked "incomplete". */
  function ScormInit(store: map<string, string>, o: ScormOracle): (r: map<string, string>)
    ensures "cmi.core.lesson_status" in store
            && store["cmi.core.lesson_status"] in ["not attempted", "unknown"]
            && o.setSucceeds
            ==> "cmi.core.lesson_status" in r && r["cmi.core.lesson_status"] == "incomplete"
    ensures ("cmi.core.lesson_status" !in store
             || store["cmi.core.lesson_status"] !in ["not attempted", "unknown"])
            ==> r == store
  {
    var status := if "cmi.core.lesson_status" in store then store["cmi.core.lesson_status"] else "";
    if status == "not attempted" || status == "unknown" then
      ScormSet(store, "cmi.core.lesson_status", "incomplete", o).store
    else store
  }

  /** The six keys `reset` writes. */
  const ResetKeys: set<string> := {"cmi.suspend_data", "cmi.core.lesson_status", "cmi.core.score.raw",
                                   "cmi.core.score.max", "cmi.core.score.min", "cmi.core.exit"}

  /** `Scorm12Adapter.reset()`: blank the suspend data, the score and the
      exit state and set the status to "incomplete", leaving every other
      key alone; the reply is the commit's. */
  function ScormReset(store: map<string, string>, o: ScormOracle): (r: Written)
    ensures o.setSucceeds ==>
              "cmi.suspend_data" in r.store && r.store["cmi.suspend_data"] == ""
              && "cmi.core.lesson_status" in r.store && r.store["cmi.core.lesson_status"] == "incomplete"
              && "cmi.core.score.raw" in r.store && r.store["cmi.core.score.raw"] == ""
              && "cmi.core.score.max" in r.store && r.store["cmi.core.score.max"] == ""
              && "cmi.core.score.min" in r.store && r.store["cmi.core.score.min"] == ""
              && "cmi.core.exit" in r.store && r.store["cmi.core.exit"] == ""
    ensures forall k :: k in store && k !in ResetKeys ==> k in r.store && r.store[k] == store[k]
    ensures forall k :: k in r.store ==> k in store || k in ResetKeys
    ensures !o.setSucceeds ==> r.store == store
    ensures r.ok == o.commitSucceeds
  {
    var s1 := ScormSet(store, "cmi.suspend_data", "", o).store;
    var s2 := ScormSet(s1, "cmi.core.lesson_status", "incomplete", o).store;
    var s3 := ScormSet(s2, "cmi.core.score.raw", "", o).store;
    var s4 := ScormSet(s3, "cmi.core.score.max", "", o).store;
    var s5 := ScormSet(s4, "cmi.core.score.min", "", o).store;
    var s6 := ScormSet(s5, "cmi.core.exit", "", o).store;
    Written(s6, o.commitSucceeds)
  }

  // ---------------------------------------------------------------------
  // the local-storage adapter

  /** `_prefix`: every key the adapter writes starts with it. */
  const Prefix: string := "course_data_"

  /** `_set(key, value)`: stores under the prefixed key unless storage
      throws (a full quota), which the oracle `accepts` stands for. */
  function LocalSet(store: map<string, string>, key: string, value: string, accepts: bool): (r: Written)
    ensures accepts ==> r == Written(store[Prefix + key := value], true)
    ensures !accepts ==> r == Written(store, false)
  {
    if accepts then Written(store[Prefix + key := value], true) else Written(store, false)
  }

  /** `LocalStorageAdapter.setStatus(status)`: stores any status and
      always reports true, even when storage refused the write. */
  function LocalSetStatus(store: map<string, string>, status: string, accepts: bool): (r: Written)
    ensures r.ok
    ensures accepts ==> Prefix + "status" in r.store && r.store[Prefix + "status"] == status
    ensures !accepts ==> r.store == store
  {
    Written(LocalSet(store, "status", status, accepts).store, true)
  }

  /** `LocalStorageAdapter.reset()`: removes every key with the prefix. */
  function LocalReset(store: map<string, string>): (r: map<string, string>)
    ensures forall k :: k in r ==> !StartsWith(k, Prefix)
    ensures forall k :: k in store && !StartsWith(k, Prefix) ==> k in r && r[k] == store[k]
    ensures forall k :: k in r ==> k in store
  {
    map k | k in store && !StartsWith(k, Prefix) :: store[k]
  }

  /** After a reset, the saved data reads back as `null`. */
  lemma LocalResetForgetsSave(store: map<string, string>)
    ensures Prefix + "suspend_data" !in LocalReset(store)
  {
    assert StartsWith(Prefix + "suspend_data", Prefix);
  }

  // ---------------------------------------------------------------------
  // the façade

  datatype Driver = Scorm12 | LocalStorage

  /** The façade's state, with the two stores it can reach. */
  datatype Facade = Facade(
    initialized: bool,
    driver: Option<Driver>,
    scorm: map<string, string>,
    local: map<string, string>)

  /** What the host page offers `init("detect")`: whether the wrapper is
      loaded, whether its `init()` connects, and the version text it then
      reports ("1.2", "2004", or "null"). */
  datatype Host = Host(pipwerksLoaded: bool, connects: bool, version: string)

  /** `init(lmsType)`, for a type other than "detect". */
  function InitType(f: Facade, lmsType: string, o: ScormOracle): (r: Facade)
    ensures r.initialized
    ensures r.driver == Some(if lmsType == "SCORM 1.2" then Scorm12 else LocalStorage)
  {
    if lmsType == "SCORM 1.2" then
      f.(driver := Some(Scorm12), scorm := ScormInit(f.scorm, o), initialized := true)
    else
      // "SCORM 2004" is reported as unsupported and falls back to standalone
      f.(driver := Some(LocalStorage), initialized := true)
  }

  /** `init(lmsType)`: "detect" asks the wrapper and continues with
      `SCORM <version>` when it connects, with "standalone" otherwise. */
  function Init(f: Facade, lmsType: string, host: Host, o: ScormOracle): (r: Facade)
    ensures r.initialized
  {
    if lmsType == "detect" then
      var connected := host.pipwerksLoaded && host.connects;
      if connected then InitType(f, "SCORM " + host.version, o)
      else InitType(f, "standalone", o)
    else InitType(f, lmsType, o)
  }

  /** Only a connected SCORM 1.2 wrapper selects the SCORM driver; SCORM
      2004, a missing or silent wrapper, and any other type all end in
      standalone mode, initialized, without touching the SCORM store. */
  lemma InitSelectsDriver(f: Facade, lmsType: string, host: Host, o: ScormOracle)
    ensures var r := Init(f, lmsType, host, o);
            r.initialized
            && (r.driver == Some(Scorm12) <==>
                  lmsType == "SCORM 1.2"
                  || (lmsType == "detect" && host.pipwerksLoaded && host.connects && host.version == "1.2"))
            && (r.driver != Some(Scorm12) ==> r.driver == Some(LocalStorage) && r.scorm == f.scorm)
  {
    if lmsType == "detect" && host.pipwerksLoaded && host.connects {
      if "SCORM " + host.version == "SCORM 1.2" {
        assert host.version == ("SCORM " + host.version)[6..];
      }
    }
  }

  /** A façade call, with its argument. */
  datatype Call =
    | SaveData(data: string)
    | LoadData
    | SetStatus(status: string)
    | GetStudentName
    | GetStudentID
    | Reset
    | SetScore
    | SetSessionTime
    | Quit

  /** What a JavaScript call returns. */
  datatype Reply = Undefined | Null | Bool(b: bool) | Text(s: string)

  datatype Answered = Answered(state: Facade, reply: Reply)

  /** The SCORM wrapper's `get`: what the LMS holds, "" for a key it does
      not hold. */
  function ScormGet(store: map<string, string>, key: string): string
  {
    if key in store then store[key] else ""
  }

  /** The façade forwarding a call to the selected driver. `accepts` is
      whether local storage takes a write. `setStatus`, `setScore`,
      `setSessionTime` and `quit` return nothing once initialized. */
  function Dispatch(f: Facade, call: Call, o: ScormOracle, accepts: bool): (r: Answered)
  {
    if !f.initialized || f.driver.None? then
      Answered(f, if call.LoadData? then Null else Bool(false))
    else
      var scorm := f.driver.value == Scorm12;
      match call
      case SaveData(data) =>
        if scorm then
          var w := ScormSaveData(f.scorm, data, o);
          Answered(f.(scorm := w.store), Bool(w.ok))
        else
          var w := LocalSet(f.local, "suspend_data", data, accepts);
          Answered(f.(local := w.store), Bool(w.ok))
      case LoadData =>
        if scorm then Answered(f, Text(ScormGet(f.scorm, "cmi.suspend_data")))
        else if Prefix + "suspend_data" in f.local then Answered(f, Text(f.local[Prefix + "suspend_data"]))
        else Answered(f, Null)
      case SetStatus(status) =>
        if scorm then Answered(f.(scorm := ScormSetStatus(f.scorm, status, o).store), Undefined)
        else Answered(f.(local := LocalSetStatus(f.local, status, accepts).store), Undefined)
      case GetStudentName =>
        Answered(f, Text(if scorm then ScormGet(f.scorm, "cmi.core.student_name") else "Student"))
      case GetStudentID =>
        Answered(f, Text(if scorm then ScormGet(f.scorm, "cmi.core.student_id") else "0000"))
      case Reset =>
        if scorm then
          var w := ScormReset(f.scorm, o);
          Answered(f.(scorm := w.store), Bool(w.ok))
        else Answered(f.(local := LocalReset(f.local)), Undefined)
      case SetScore => Answered(f, Undefined)
      case SetSessionTime => Answered(f, Undefined)
      case Quit => Answered(f, Undefined)
  }

  /** Before `init`, every call answers false (`loadData` answers null)
      and touches nothing. */
  lemma UninitializedIsNoOp(f: Facade, call: Call, o: ScormOracle, accepts: bool)
    requires !f.initialized
    ensures Dispatch(f, call, o, accepts).state == f
    ensures Dispatch(f, call, o, accepts).reply == if call.LoadData? then Null else Bool(false)
  {
  }

  /** Once initialized, save data written through the façade reads back
      through it, for either driver, when the write is accepted and, for
      SCORM, fits in 4095 UTF-16 code units. */
  lemma SaveThenLoad(f: Facade, data: string, o: ScormOracle)
    requires f.initialized && f.driver.Some?
    requires o.setSucceeds
    requires f.driver == Some(Scorm12) ==> Utf16Length(data) <= SaveLimit
    ensures var saved := Dispatch(f, SaveData(data), o, true);
            saved.reply == Bool(true)
            && Dispatch(saved.state, LoadData, o, true).reply == Text(data)
  {
  }

  /** Through the façade, a status reaches the SCORM store only when it is
      one of the six valid values, and `setStatus` itself never reports
      the driver's answer. */
  lemma FacadeSetStatus(f: Facade, status: string, o: ScormOracle, accepts: bool)
    requires f.initialized && f.driver == Some(Scorm12)
    ensures Dispatch(f, SetStatus(status), o, accepts).reply == Undefined
    ensures status !in ValidStatusValues ==> Dispatch(f, SetStatus(status), o, accepts).state == f
  {
  }
}
