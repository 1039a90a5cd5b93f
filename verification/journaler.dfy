/** The current event-log encoder and save codec (`journaler`): a fixed
    event-name/token table, the timestamped log buffer, the CSV report, and
    `pack`/`unpack` with optional gzip compression behind a "CGZ" marker.
    Gzip with base64 is an opaque pair of functions passed in by the caller;
    the clock is a parameter; the restart prompt is an oracle boolean. */
module Journaler {
  import opened Optional
  import opened Text
  import opened Base36
  import opened Frame
  import opened Table
  import opened Events

  const CompressionPrefix: string := "CGZ"

  /** The codec's session state. */
  datatype Journaler = Journaler(
    supportsCompression: bool,   // `typeof CompressionStream != "undefined"` at init
    useCompression: bool,
    startTime: Option<int>,      // milliseconds; `null` until init
    eventBuffer: seq<string>,    // entries not yet packed
    currentLog: seq<string>,     // every packed (or unpacked) entry
    userID: string)

  /** A value handed to `log`: a primitive, rendered with `String(value)`,
      or an object, rendered with `JSON.stringify(value)`. Both renderings
      are done by the JavaScript runtime; the model carries their text. */
  datatype LogValue = Primitive(text: string) | Structured(json: string)

  function Render(v: LogValue): string
  {
    match v
    case Primitive(t) => t
    case Structured(j) => j
  }

  /** `_getOffest()`: whole seconds since the start time, rounded down
      (`Date.now() - null` counts from the epoch). */
  function Offset(j: Journaler, now: int): int
  {
    (now - j.startTime.GetOr(0)) / 1000
  }

  /** The offset is the elapsed time in whole seconds, rounded down, and
      is never negative once the clock has passed the start time. */
  lemma OffsetBounds(j: Journaler, now: int)
    ensures j.startTime.Some? && now >= j.startTime.value ==> Offset(j, now) >= 0
    ensures Offset(j, now) * 1000 <= now - j.startTime.GetOr(0) < Offset(j, now) * 1000 + 1000
  {
  }

  /** The token and detail text `log` records for one call: the action's
      own token and the rendered value, or, for an action the table does
      not know, the DIAGNOSTIC token and a note naming the action. */
  function TokenAndDetail(action: string, value: LogValue): (string, string)
  {
    match Encoding(action)
    case Some(token) => (token, Render(value))
    case None => (DiagnosticToken, " Unknown action '" + action + "' " + Render(value))
  }

  /** The text `log` pushes for one call: `<offset>,<token>,<detail>`. */
  function Entry(j: Journaler, action: string, value: LogValue, now: int): string
  {
    var (token, detail) := TokenAndDetail(action, value);
    ToBase36(Offset(j, now)) + "," + token + "," + detail
  }

  /** `log(action, value)`: appends exactly one entry to the buffer. */
  function Log(j: Journaler, action: string, value: LogValue, now: int): (r: Journaler)
    ensures |r.eventBuffer| == |j.eventBuffer| + 1
    ensures r.eventBuffer[..|j.eventBuffer|] == j.eventBuffer
    ensures r == j.(eventBuffer := r.eventBuffer)
  {
    j.(eventBuffer := j.eventBuffer + [Entry(j, action, value, now)])
  }

  // ---------------------------------------------------------------------
  // report

  /** One CSV row of `report`: id, the instant (milliseconds) handed to the
      calendar formatter (`None` where it would format `NaN`), event name,
      page field and the remaining comma-joined details. */
  datatype ReportRow = ReportRow(
    userID: string,
    instant: Option<int>,
    event: string,
    page: Option<string>,
    details: string)

  const Heading: seq<string> := ["ID", "Time Stamp", "Event", "Page Index", "Details"]

  /** The instant handed to the formatter for an offset field: the base
      time plus the offset in milliseconds, or `None` (`NaN`) when the
      field is not base 36. */
  function Instant(base: int, offset: Option<int>): Option<int>
  {
    match offset
    case Some(seconds) => Some(base + seconds * 1000)
    case None => None
  }

  /** The row for one log record split on commas, given the base time the
      formatter adds the offset to. */
  function RowOfFields(userID: string, base: int, list: seq<string>): ReportRow
    requires |list| >= 1
  {
    ReportRow(
      userID,
      Instant(base, ParseInt36(list[0])),
      if |list| > 1 then Decoding(list[1]).GetOr("UNKNOWN_EVENT") else "UNKNOWN_EVENT",
      if |list| > 2 then Some(list[2]) else None,
      if |list| > 3 then Join(list[3..], ',') else "")
  }

  function Row(userID: string, base: int, record: string): ReportRow
  {
    RowOfFields(userID, base, Split(record, ','))
  }

  /** `report(userIDNum, fullLog, sessionStart)` as written: the session
      start is stored into `this.startTime`, but the formatter reads
      `this._startTime`, so timestamps always count from the codec's own
      start time. Rows only; the heading is `Heading`. */
  function Report(j: Journaler, userIDArg: string, fullLog: Option<seq<string>>, sessionStart: Option<int>)
    : (rows: seq<ReportRow>)
    ensures |rows| == |fullLog.GetOr(j.currentLog)|
    ensures forall i :: 0 <= i < |rows| ==> rows[i].userID == (if userIDArg != "" then userIDArg else j.userID)
  {
    var userID := if userIDArg != "" then userIDArg else j.userID;
    var log := fullLog.GetOr(j.currentLog);
    seq(|log|, i requires 0 <= i < |log| => Row(userID, j.startTime.GetOr(0), log[i]))
  }

  /** The evidently intended `report`: timestamps count from the session
      start passed in (when truthy), else from the codec's start time. */
  function ReportIntended(j: Journaler, userIDArg: string, fullLog: Option<seq<string>>, sessionStart: Option<int>)
    : (rows: seq<ReportRow>)
    ensures |rows| == |fullLog.GetOr(j.currentLog)|
  {
    var userID := if userIDArg != "" then userIDArg else j.userID;
    var log := fullLog.GetOr(j.currentLog);
    var base := if sessionStart.Some? && sessionStart.value != 0 then sessionStart.value else j.startTime.GetOr(0);
    seq(|log|, i requires 0 <= i < |log| => Row(userID, base, log[i]))
  }

  lemma SplitEntry(ts: string, token: string, v: string)
    requires ',' !in ts && ',' !in token
    ensures Split(ts + "," + token + "," + v, ',') == [ts, token] + Split(v, ',')
  {
    var tail := token + [','] + v;
    assert ts + "," + token + "," + v == ts + [','] + tail;
    assert Split(tail, ',') == [token] + Split(v, ',') by {
      SplitAtSeparator(token, v, ',');
      SplitWithoutSeparator(token, ',');
    }
    assert Split(ts + [','] + tail, ',') == [ts] + Split(tail, ',') by {
      SplitAtSeparator(ts, tail, ',');
      SplitWithoutSeparator(ts, ',');
    }
  }

  lemma NoCommaInBase36(n: int)
    ensures ',' !in ToBase36(n)
  {
    var r := ToBase36(n);
    Base36Alphabet(n);
    forall i | 0 <= i < |r| ensures r[i] != ',' {
      assert r[i] == '-' || IsDigit(r[i]);
    }
  }

  lemma RowOfThreeFields(userID: string, base: int, ts: string, token: string, pieces: seq<string>)
    requires |pieces| >= 1
    ensures RowOfFields(userID, base, [ts, token] + pieces)
            == ReportRow(userID, Instant(base, ParseInt36(ts)), Decoding(token).GetOr("UNKNOWN_EVENT"),
                         Some(pieces[0]), if |pieces| > 1 then Join(pieces[1..], ',') else "")
  {
    var list := [ts, token] + pieces;
    assert list[3..] == pieces[1..];
  }

  lemma RowOfSplit(userID: string, base: int, record: string, list: seq<string>)
    requires Split(record, ',') == list
    ensures |list| >= 1 && Row(userID, base, record) == RowOfFields(userID, base, list)
  {
  }

  lemma SplitOfEntry(ts: string, token: string, v: string)
    requires ',' !in ts
    requires |token| == 1 && token[0] != ','
    ensures Split(ts + "," + token + "," + v, ',') == [ts, token] + Split(v, ',')
  {
    assert ',' !in token;
    SplitEntry(ts, token, v);
  }

  /** The report row of an entry shaped `<offset field>,<token>,<value>`. */
  lemma RowOfEntry(userID: string, base: int, ts: string, token: string, v: string)
    requires ',' !in ts
    requires |token| == 1 && token[0] != ','
    ensures var row := Row(userID, base, ts + "," + token + "," + v);
            var pieces := Split(v, ',');
            && row.userID == userID
            && row.instant == Instant(base, ParseInt36(ts))
            && row.event == Decoding(token).GetOr("UNKNOWN_EVENT")
            && row.page == Some(pieces[0])
            && row.details == (if |pieces| > 1 then Join(pieces[1..], ',') else "")
  {
    var pieces := Split(v, ',');
    SplitOfEntry(ts, token, v);
    RowOfSplit(userID, base, ts + "," + token + "," + v, [ts, token] + pieces);
    RowOfThreeFields(userID, base, ts, token, pieces);
  }

  /** An offset written by `log` reads back as the same number of seconds. */
  lemma InstantOfBase36(base: int, n: int)
    ensures Instant(base, ParseInt36(ToBase36(n))) == Some(base + n * 1000)
  {
    ParseToBase36(n);
  }

  lemma EntryOfKnownAction(j: Journaler, action: string, value: LogValue, now: int)
    requires Encoding(action).Some?
    ensures Entry(j, action, value, now)
            == ToBase36(Offset(j, now)) + "," + Encoding(action).value + "," + Render(value)
  {
  }

  lemma EntryOfUnknownAction(j: Journaler, action: string, value: LogValue, now: int)
    requires Encoding(action).None?
    ensures Entry(j, action, value, now)
            == ToBase36(Offset(j, now)) + "," + DiagnosticToken + "," + (" Unknown action '" + action + "' " + Render(value))
  {
  }

  /** The row of an entry with a base-36 offset and a token that decodes
      to `action`. */
  lemma RowOfLoggedEntry(userID: string, base: int, n: int, token: string, action: string, v: string)
    requires |token| == 1 && token[0] != ',' && Decoding(token) == Some(action)
    ensures var row := Row(userID, base, ToBase36(n) + "," + token + "," + v);
            var pieces := Split(v, ',');
            && row.event == action
            && row.instant == Some(base + n * 1000)
            && row.page == Some(pieces[0])
            && row.details == (if |pieces| > 1 then Join(pieces[1..], ',') else "")
  {
    NoCommaInBase36(n);
    RowOfEntry(userID, base, ToBase36(n), token, v);
    InstantOfBase36(base, n);
  }

  /** `report` decodes what `log` wrote, part one: the entry for a known
      action reports that action at the logged offset, added to the base time. */
  lemma ReportDecodesLoggedEvent(j: Journaler, action: string, value: LogValue, now: int, base: int)
    requires Encoding(action).Some?
    ensures var row := Row(j.userID, base, Entry(j, action, value, now));
            var pieces := Split(Render(value), ',');
            var seconds := Offset(j, now);
            row.event == action && row.instant == Some(base + seconds * 1000)
  {
    var token := Encoding(action).value;
    var seconds := Offset(j, now);
    var v := Render(value);
    var pieces := Split(v, ',');
    var record := ToBase36(seconds) + "," + token + "," + v;
    assert Entry(j, action, value, now) == record by {
      EntryOfKnownAction(j, action, value, now);
    }
    var row := Row(j.userID, base, record);
    assert row.event == action && row.instant == Some(base + seconds * 1000) by {
      assert |token| == 1 && token[0] != ',' && Decoding(token) == Some(action) by {
        EncodeThenDecode(action);
      }
      RowOfLoggedEntry(j.userID, base, seconds, token, action, v);
    }
  }

  /** `report` decodes what `log` wrote, part two: the value's first comma
      field becomes the page and the rest, rejoined, the details. */
  lemma ReportDecodesLoggedValue(j: Journaler, action: string, value: LogValue, now: int, base: int)
    requires Encoding(action).Some?
    ensures var row := Row(j.userID, base, Entry(j, action, value, now));
            var pieces := Split(Render(value), ',');
            var seconds := Offset(j, now);
            row.page == Some(pieces[0]) && row.details == (if |pieces| > 1 then Join(pieces[1..], ',') else "")
  {
    var token := Encoding(action).value;
    var seconds := Offset(j, now);
    var v := Render(value);
    var pieces := Split(v, ',');
    var record := ToBase36(seconds) + "," + token + "," + v;
    assert Entry(j, action, value, now) == record by {
      EntryOfKnownAction(j, action, value, now);
    }
    var row := Row(j.userID, base, record);
    assert row.page == Some(pieces[0]) && row.details == (if |pieces| > 1 then Join(pieces[1..], ',') else "") by {
      assert |token| == 1 && token[0] != ',' && Decoding(token) == Some(action) by {
        EncodeThenDecode(action);
      }
      RowOfLoggedEntry(j.userID, base, seconds, token, action, v);
    }
  }

  lemma DiagnosticRow(userID: string, base: int, n: int, rest: string)
    ensures Row(userID, base, ToBase36(n) + "," + DiagnosticToken + "," + rest).event == "DIAGNOSTIC"
  {
    DiagnosticDecodes();
    NoCommaInBase36(n);
    RowOfEntry(userID, base, ToBase36(n), DiagnosticToken, rest);
  }

  lemma DiagnosticNamesAction(ts: string, action: string, v: string)
    ensures (ts + "," + DiagnosticToken + "," + (" Unknown action '" + action + "' " + v))[|ts| + 20..][..|action|]
            == action
  {
    var e := ts + "," + DiagnosticToken + "," + (" Unknown action '" + action + "' " + v);
    assert e[|ts| + 20..] == action + "' " + v;
  }

  /** The entry of an unknown action reports as DIAGNOSTIC. */
  lemma UnknownEntryIsDiagnostic(j: Journaler, action: string, value: LogValue, now: int, base: int)
    requires Encoding(action).None?
    ensures Row(j.userID, base, Entry(j, action, value, now)).event == "DIAGNOSTIC"
  {
    var rest := " Unknown action '" + action + "' " + Render(value);
    assert Entry(j, action, value, now) == ToBase36(Offset(j, now)) + "," + DiagnosticToken + "," + rest by {
      EntryOfUnknownAction(j, action, value, now);
    }
    DiagnosticRow(j.userID, base, Offset(j, now), rest);
  }

  /** The entry of an unknown action names the action right after the
      fixed text. */
  lemma UnknownEntryNamesAction(j: Journaler, action: string, value: LogValue, now: int)
    requires Encoding(action).None?
    ensures Entry(j, action, value, now)[|ToBase36(Offset(j, now))| + 20..][..|action|] == action
  {
    var ts := ToBase36(Offset(j, now));
    assert Entry(j, action, value, now) == ts + "," + DiagnosticToken + "," + (" Unknown action '" + action + "' " + Render(value)) by {
      EntryOfUnknownAction(j, action, value, now);
    }
    DiagnosticNamesAction(ts, action, Render(value));
  }

  /** `log` never rejects an action: an unknown one is recorded under the
      DIAGNOSTIC token, and the entry names the action. */
  lemma LogUnknownAction(j: Journaler, action: string, value: LogValue, now: int, base: int)
    requires Encoding(action).None?
    ensures var e := Log(j, action, value, now).eventBuffer[|j.eventBuffer|];
            && Row(j.userID, base, e).event == "DIAGNOSTIC"
            && e[|ToBase36(Offset(j, now))| + 20..][..|action|] == action
  {
    assert Log(j, action, value, now).eventBuffer[|j.eventBuffer|] == Entry(j, action, value, now);
    UnknownEntryIsDiagnostic(j, action, value, now, base);
    UnknownEntryNamesAction(j, action, value, now);
  }

  /** As written, the session start has no effect: a log whose first entry
      was written 1 s into a session that started at t = 5000 ms is
      reported at 1000 ms when the codec itself started at 0. */
  lemma ReportIgnoresSessionStart()
    ensures var j := Journaler(false, true, Some(0), [], [], "u");
            Report(j, "", Some(["1,0,x"]), Some(5000))[0].instant == Some(1000)
            && ReportIntended(j, "", Some(["1,0,x"]), Some(5000))[0].instant == Some(6000)
  {
    var j := Journaler(false, true, Some(0), [], [], "u");
    assert "1,0,x" == "1" + "," + "0" + "," + "x";
    RowOfEntry("u", 0, "1", "0", "x");
    RowOfEntry("u", 5000, "1", "0", "x");
    assert ToBase36(1) == "1";
    InstantOfBase36(0, 1);
    InstantOfBase36(5000, 1);
    assert Report(j, "", Some(["1,0,x"]), Some(5000))[0] == Row("u", 0, "1,0,x");
    assert ReportIntended(j, "", Some(["1,0,x"]), Some(5000))[0] == Row("u", 5000, "1,0,x");
  }

  /** With the intended `report`, a viewer given the session start of the
      codec that logged an event reports the moment of the `log` call, to
      the second, whatever the viewer's own start time. */
  lemma ReportIntendedRecoversLogTime(j: Journaler, action: string, value: LogValue, now: int, viewer: Journaler)
    requires j.startTime.Some? && j.startTime.value != 0
    requires Encoding(action).Some?
    ensures var t := ReportIntended(viewer, "", Some([Entry(j, action, value, now)]), j.startTime)[0].instant;
            t.Some? && t.value <= now < t.value + 1000
  {
    var e := Entry(j, action, value, now);
    var s := j.startTime.value;
    assert ReportIntended(viewer, "", Some([e]), j.startTime)[0] == Row(viewer.userID, s, e);
    ReportDecodesLoggedEvent(j, action, value, now, s);
    OffsetBounds(j, now);
  }

  // ---------------------------------------------------------------------
  // pack / unpack

  /** `pack(deltaArray)` as written: moves the buffer to the end of the
      log, frames the log with the deltas, and, when compression is
      supported and enabled, returns "CGZ" followed by the compressed
      frame. `gzip` is the opaque compress-then-base64 step, which yields
      "" when it fails. */
  function Pack(j: Journaler, deltas: seq<Delta>, gzip: string -> string): (r: (Journaler, string))
    ensures r.0 == j.(currentLog := j.currentLog + j.eventBuffer, eventBuffer := [])
    ensures !(j.supportsCompression && j.useCompression)
            ==> r.1 == RawFrame(j.userID, j.startTime, deltas, j.currentLog + j.eventBuffer)
    ensures j.supportsCompression && j.useCompression ==> StartsWith(r.1, CompressionPrefix)
  {
    var log := j.currentLog + j.eventBuffer;
    var raw := RawFrame(j.userID, j.startTime, deltas, log);
    var compressed := if j.supportsCompression && j.useCompression then CompressionPrefix + gzip(raw) else "";
    (j.(currentLog := log, eventBuffer := []), if compressed != "" then compressed else raw)
  }

  /** With compression enabled, a failing compressor makes `pack` return the
      bare marker "CGZ" whatever the deltas and log were: the save carries
      no information, so no loader can recover it. */
  lemma PackLosesFrameWhenCompressionFails(j: Journaler, d1: seq<Delta>, d2: seq<Delta>, gzip: string -> string)
    requires j.supportsCompression && j.useCompression
    requires forall s :: gzip(s) == ""
    ensures Pack(j, d1, gzip).1 == CompressionPrefix
    ensures Pack(j, d1, gzip).1 == Pack(j, d2, gzip).1
  {
  }

  /** The evidently intended `pack`: the raw frame whenever compression is
      off, unsupported, or yields "". */
  function PackWithFallback(j: Journaler, deltas: seq<Delta>, gzip: string -> string): (r: (Journaler, string))
    ensures r.0 == j.(currentLog := j.currentLog + j.eventBuffer, eventBuffer := [])
  {
    var log := j.currentLog + j.eventBuffer;
    var raw := RawFrame(j.userID, j.startTime, deltas, log);
    var z := if j.supportsCompression && j.useCompression then gzip(raw) else "";
    (j.(currentLog := log, eventBuffer := []), if z != "" then CompressionPrefix + z else raw)
  }

  /** What `unpack` hands back: the new codec state, the parsed save
      (`None` for every `null` return), and whether the course was locked
      down because the learner refused the restart. */
  datatype Unpacked = Unpacked(state: Journaler, save: Option<SaveRecord>, lockedDown: bool)

  /** Decompression of the text after the marker: `gunzip` is the opaque
      base64-then-gunzip step (`None` when it throws). Without stream
      support the constructor itself is missing and the call throws; the
      model reads the support flag as the constructor's presence. */
  function Inflate(j: Journaler, text: string, gunzip: string -> Option<string>): Option<string>
  {
    if j.supportsCompression then gunzip(text) else None
  }

  /** `"…".slice(3)`: the text after the marker, or "" for shorter text. */
  function AfterPrefix(s: string): string
  {
    if |s| >= |CompressionPrefix| then s[|CompressionPrefix|..] else ""
  }

  /** `unpack(saveString)`. `None` input models `null`/`undefined`;
      `confirmRestart` is the learner's answer to the restart prompt. */
  function Unpack(j: Journaler, saveString: Option<string>, confirmRestart: bool, gunzip: string -> Option<string>)
    : (r: Unpacked)
    ensures r.save.None? ==> r.state == j
    ensures r.save.Some? ==> r.state == j.(currentLog := r.save.value.log, userID := r.save.value.userID)
    ensures r.save.Some? ==> r.save.value.version == Version && !r.lockedDown
    ensures saveString.None? || saveString == Some("") ==> r == Unpacked(j, None, false)
    ensures r.lockedDown <==> (saveString.Some? && StartsWith(saveString.value, CompressionPrefix)
                              && !j.supportsCompression && !confirmRestart)
  {
    if saveString.None? || saveString.value == "" then Unpacked(j, None, false)
    else
      var s := saveString.value;
      var prefixed := StartsWith(s, CompressionPrefix);
      if prefixed && !j.supportsCompression && !confirmRestart then Unpacked(j, None, true)
      else
        var attempt :=
          if (j.supportsCompression && j.useCompression) || prefixed
          then Inflate(j, AfterPrefix(s), gunzip)
          else Some(s);
        var raw :=
          if attempt.Some? then attempt
          else if StartsWith(s, Version + [Delimiter]) then Some(s)
          else None;
        if raw.None? then Unpacked(j, None, false)
        else
          match ParseFrame(raw.value)
          case None => Unpacked(j, None, false)
          case Some(record) => Unpacked(j.(currentLog := record.log, userID := record.userID), Some(record), false)
  }

  /** The three ways `unpack` rejects a non-empty save without a prompt:
      decompression fails on text that does not start with "v1^", or the
      frame has fewer than four fields or a version other than "v1". */
  lemma UnpackRejects(j: Journaler, s: string, confirmRestart: bool, gunzip: string -> Option<string>)
    requires s != ""
    requires !(StartsWith(s, CompressionPrefix) && !j.supportsCompression && !confirmRestart)
    ensures var attempt := if (j.supportsCompression && j.useCompression) || StartsWith(s, CompressionPrefix)
                           then Inflate(j, AfterPrefix(s), gunzip) else Some(s);
            && (attempt.None? && !StartsWith(s, "v1^") ==> Unpack(j, Some(s), confirmRestart, gunzip).save.None?)
            && (attempt.None? && StartsWith(s, "v1^") ==>
                  Unpack(j, Some(s), confirmRestart, gunzip).save == ParseFrame(s))
            && (attempt.Some? ==> Unpack(j, Some(s), confirmRestart, gunzip).save == ParseFrame(attempt.value))
  {
    assert Version + [Delimiter] == "v1^";
  }

  /** A save that starts with "v1^" is parsed as raw text whenever
      decompression is not attempted or fails ("saved without compression
      by a capable client"). */
  lemma UnpackRawSave(loader: Journaler, s: string, confirmRestart: bool, gunzip: string -> Option<string>)
    requires StartsWith(s, "v1^")
    requires loader.supportsCompression && loader.useCompression ==> Inflate(loader, AfterPrefix(s), gunzip).None?
    ensures var r := Unpack(loader, Some(s), confirmRestart, gunzip);
            && r.save == ParseFrame(s)
            && !r.lockedDown
  {
    assert s[0] == 'v';
    assert !StartsWith(s, CompressionPrefix);
    assert Version + [Delimiter] == "v1^";
  }

  /** A compressed save loaded where streams are unsupported: declining the
      restart locks the course; confirming it starts afresh (decompression
      then throws and the text does not look raw). */
  lemma CompressedSaveOnIncapableBrowser(j: Journaler, s: string, confirmRestart: bool, gunzip: string -> Option<string>)
    requires !j.supportsCompression
    requires StartsWith(s, CompressionPrefix)
    ensures Unpack(j, Some(s), confirmRestart, gunzip) == Unpacked(j, None, !confirmRestart)
  {
    assert s[0] == 'C';
  }

  /** The conditions under which `pack` followed by `unpack` recovers the
      frame: a user id without `^`, recoverable deltas and log. */
  predicate PackRecoverable(j: Journaler, deltas: seq<Delta>)
  {
    && Delimiter !in j.userID
    && (forall i :: 0 <= i < |deltas| ==> RecoverableDelta(deltas[i]))
    && RecoverableLog(j.currentLog + j.eventBuffer)
  }

  lemma FrameStartsWithVersion(userID: string, start: Option<int>, deltas: seq<Delta>, log: seq<string>)
    ensures StartsWith(RawFrame(userID, start, deltas, log), "v1^")
    ensures !StartsWith(RawFrame(userID, start, deltas, log), CompressionPrefix)
  {
    var f := Fields(userID, start, deltas, log);
    assert f == [f[0]] + f[1..];
    assert RawFrame(userID, start, deltas, log) == "v1" + "^" + Join(f[1..], Delimiter);
  }

  /** Round trip with compression off at save time: the loader (the same
      browser, or any browser whose decompressor rejects raw text) gets
      back the user id, start time, every delta and the whole log, and
      adopts the log and user id. */
  lemma RoundTripUncompressed(j: Journaler, deltas: seq<Delta>, gzip: string -> string,
                              loader: Journaler, confirmRestart: bool, gunzip: string -> Option<string>)
    requires !(j.supportsCompression && j.useCompression)
    requires PackRecoverable(j, deltas)
    requires var raw := Pack(j, deltas, gzip).1;
             loader.supportsCompression && loader.useCompression ==> gunzip(AfterPrefix(raw)) == None
    ensures var log := j.currentLog + j.eventBuffer;
            var r := Unpack(loader, Some(Pack(j, deltas, gzip).1), confirmRestart, gunzip);
            && r.save == Some(SaveRecord(Version, j.userID, StartBack(j.startTime), deltas, log))
            && r.state.currentLog == log
            && r.state.userID == j.userID
            && !r.lockedDown
  {
    var log := j.currentLog + j.eventBuffer;
    var raw := RawFrame(j.userID, j.startTime, deltas, log);
    FrameStartsWithVersion(j.userID, j.startTime, deltas, log);
    ParseFrameRoundTrip(j.userID, j.startTime, deltas, log);
    UnpackRawSave(loader, raw, confirmRestart, gunzip);
  }

  /** Round trip with compression on: when the opaque decompressor inverts
      the compressor on this frame, a capable loader recovers everything. */
  lemma RoundTripCompressed(j: Journaler, deltas: seq<Delta>, gzip: string -> string,
                            loader: Journaler, confirmRestart: bool, gunzip: string -> Option<string>)
    requires j.supportsCompression && j.useCompression && loader.supportsCompression
    requires PackRecoverable(j, deltas)
    requires var raw := RawFrame(j.userID, j.startTime, deltas, j.currentLog + j.eventBuffer);
             gunzip(gzip(raw)) == Some(raw)
    ensures var log := j.currentLog + j.eventBuffer;
            Unpack(loader, Some(Pack(j, deltas, gzip).1), confirmRestart, gunzip).save
              == Some(SaveRecord(Version, j.userID, StartBack(j.startTime), deltas, log))
  {
    var log := j.currentLog + j.eventBuffer;
    var raw := RawFrame(j.userID, j.startTime, deltas, log);
    var out := CompressionPrefix + gzip(raw);
    assert AfterPrefix(out) == gzip(raw);
    assert out[..3] == CompressionPrefix;
    ParseFrameRoundTrip(j.userID, j.startTime, deltas, log);
  }

  /** The intended fallback makes a failed compression harmless: the raw
      frame is saved and recovered. */
  lemma FallbackRecoversWhenCompressionFails(j: Journaler, deltas: seq<Delta>, gzip: string -> string,
                                             loader: Journaler, confirmRestart: bool, gunzip: string -> Option<string>)
    requires PackRecoverable(j, deltas)
    requires gzip(RawFrame(j.userID, j.startTime, deltas, j.currentLog + j.eventBuffer)) == ""
    requires var raw := PackWithFallback(j, deltas, gzip).1;
             loader.supportsCompression && loader.useCompression ==> gunzip(AfterPrefix(raw)) == None
    ensures var log := j.currentLog + j.eventBuffer;
            Unpack(loader, Some(PackWithFallback(j, deltas, gzip).1), confirmRestart, gunzip).save
              == Some(SaveRecord(Version, j.userID, StartBack(j.startTime), deltas, log))
  {
    var log := j.currentLog + j.eventBuffer;
    var raw := RawFrame(j.userID, j.startTime, deltas, log);
    FrameStartsWithVersion(j.userID, j.startTime, deltas, log);
    ParseFrameRoundTrip(j.userID, j.startTime, deltas, log);
    UnpackRawSave(loader, raw, confirmRestart, gunzip);
  }
}
