/** The earlier codec (`telemetry`): a 23-name token table, a logger that
    files unknown actions under GENERAL, the same `^` frame as the current
    codec, a `pack` that always tries compression and falls back to the
    raw frame, an `unpack` that only reads compressed saves, and a stub
    `report`. Gzip with base64 is an opaque pair of functions; the clock is
    a parameter. */
module Telemetry {
  import opened Optional
  import opened Table
  import opened Text
  import opened Base36
  import opened Frame

  // ---------------------------------------------------------------------
  // token table

  /** `_encoding`, in source order. */
  const EncodingTable: Table := [
    ("COURSE_COMPLETE", "0"),
    ("PAGE_COMPLETE", "1"),
    ("COURSE_LOADED", "2"),
    ("STARTED_NEW_COURSE", "3"),
    ("QUIZ_SUBMITTED", "4"),
    ("QUESTIONS_RENDERED", "5"),
    ("GENERAL", "6"),
    ("SCROLLED", "7"),
    ("PAGE_NEXT", "8"),
    ("PAGE_PREV", "9"),
    ("VIDEO_PLAY", "a"),
    ("VIDEO_PAUSED", "b"),
    ("VIDEO_FORWARD", "c"),
    ("VIDEO_REWIND", "d"),
    ("VIDEO_SPEED_CHANGE", "e"),
    ("VIDEO_FULL_SCREEN", "f"),
    ("VIDEO_NORMAL_SCREEN", "g"),
    ("VIDEO_PROGRESS", "h"),
    ("VIDEO_HEARTBEAT", "i"),
    ("VISIBILITY_HIDDEN", "j"),
    ("VISIBILITY_VISIBLE", "k"),
    ("USER_IDLE", "l"),
    ("USER_ACTIVE", "m")]

  /** `_decoding`, written out separately in the source. */
  const DecodingTable: Table := [
    ("0", "COURSE_COMPLETE"),
    ("1", "PAGE_COMPLETE"),
    ("2", "COURSE_LOADED"),
    ("3", "STARTED_NEW_COURSE"),
    ("4", "QUIZ_SUBMITTED"),
    ("5", "QUESTIONS_RENDERED"),
    ("6", "GENERAL"),
    ("7", "SCROLLED"),
    ("8", "PAGE_NEXT"),
    ("9", "PAGE_PREV"),
    ("a", "VIDEO_PLAY"),
    ("b", "VIDEO_PAUSED"),
    ("c", "VIDEO_FORWARD"),
    ("d", "VIDEO_REWIND"),
    ("e", "VIDEO_SPEED_CHANGE"),
    ("f", "VIDEO_FULL_SCREEN"),
    ("g", "VIDEO_NORMAL_SCREEN"),
    ("h", "VIDEO_PROGRESS"),
    ("i", "VIDEO_HEARTBEAT"),
    ("j", "VISIBILITY_HIDDEN"),
    ("k", "VISIBILITY_VISIBLE"),
    ("l", "USER_IDLE"),
    ("m", "USER_ACTIVE")]

  function Encoding(action: string): Option<string>
  {
    Lookup(EncodingTable, action)
  }

  function Decoding(token: string): Option<string>
  {
    Lookup(DecodingTable, token)
  }

  /** The two tables list the same 23 pairs, each the other way round. */
  lemma TablesMirror()
    ensures |EncodingTable| == 23
    ensures Mirrors(EncodingTable, DecodingTable)
  {
  }

  /** No event name is listed twice (checked in three ranges of the first
      position, which keeps each proof small). */
  lemma DistinctNames()
    ensures DistinctKeys(EncodingTable)
  {
    DistinctNamesFrom0();
    DistinctNamesFrom4();
    DistinctNamesFrom9();
  }

  lemma DistinctNamesFrom0()
    ensures forall i, k :: 0 <= i < 4 && i < k < |EncodingTable| ==> EncodingTable[i].0 != EncodingTable[k].0
  {
  }

  lemma DistinctNamesFrom4()
    ensures forall i, k :: 4 <= i < 9 && i < k < |EncodingTable| ==> EncodingTable[i].0 != EncodingTable[k].0
  {
  }

  lemma DistinctNamesFrom9()
    ensures forall i, k :: 9 <= i < k < |EncodingTable| ==> EncodingTable[i].0 != EncodingTable[k].0
  {
  }

  lemma TokensAscend()
    ensures forall i :: 0 <= i < |DecodingTable| ==> |DecodingTable[i].0| == 1
    ensures forall i :: 0 <= i < |DecodingTable| - 1 ==> DecodingTable[i].0[0] < DecodingTable[i + 1].0[0]
  {
  }

  /** No token is listed twice: the tokens are single characters in
      strictly increasing order. */
  lemma DistinctTokens()
    ensures DistinctKeys(DecodingTable)
  {
    TokensAscend();
    AscendingKeysDistinct(DecodingTable);
  }

  /** Decoding an encoded name gives the name back, and every token is a
      single character. */
  lemma EncodeThenDecode(action: string)
    ensures Encoding(action).Some? ==> Decoding(Encoding(action).value) == Some(action)
    ensures Encoding(action).Some? ==> |Encoding(action).value| == 1
  {
    TablesMirror();
    DistinctTokens();
    TokensAscend();
    LookupThenBack(EncodingTable, DecodingTable, action);
  }

  /** Encoding a decoded name gives the token back. */
  lemma DecodeThenEncode(token: string)
    ensures Decoding(token).Some? ==> Encoding(Decoding(token).value) == Some(token)
  {
    TablesMirror();
    MirrorsSymmetric(EncodingTable, DecodingTable);
    DistinctNames();
    LookupThenBack(DecodingTable, EncodingTable, token);
  }

  const GeneralToken: string := "6"

  /** This revision names the pause event VIDEO_PAUSED, token "b". */
  lemma PausedToken()
    ensures Encoding("VIDEO_PAUSED") == Some("b")
  {
    DistinctNames();
    assert EncodingTable[11] == ("VIDEO_PAUSED", "b");
    FindDistinct(EncodingTable, 11);
  }

  /** Unknown actions are filed under GENERAL, token "6". */
  lemma GeneralTokenIsEncoding()
    ensures Encoding("GENERAL") == Some(GeneralToken)
  {
    DistinctNames();
    assert EncodingTable[6] == ("GENERAL", "6");
    FindDistinct(EncodingTable, 6);
  }

  /** The later spelling VIDEO_PAUSE is unknown to this revision. */
  lemma PauseIsUnknown()
    ensures Encoding("VIDEO_PAUSE") == None
  {
    PauseNotListed(0, 8);
    PauseNotListed(8, 16);
    PauseNotListed(16, 23);
    FindSpec(EncodingTable, "VIDEO_PAUSE");
  }

  lemma PauseNotListed(lo: nat, hi: nat)
    requires lo <= hi <= |EncodingTable| && hi - lo <= 8
    ensures forall i :: lo <= i < hi ==> EncodingTable[i].0 != "VIDEO_PAUSE"
  {
    forall i | lo <= i < hi
      ensures EncodingTable[i].0 != "VIDEO_PAUSE"
    {
      var name := EncodingTable[i].0;
      if |name| == 11 && name[0] == 'V' {
        assert false;
      }
    }
  }

  // ---------------------------------------------------------------------
  // state and log

  /** The codec's state. The source never declares `_userID`, so the user
      id it frames is `undefined`, which `join` writes as "". */
  datatype Telemetry = Telemetry(
    startTime: Option<int>,      // milliseconds; `null` until init
    eventBuffer: seq<string>)

  const UserIDField: string := ""

  /** `_getOffest()`: whole seconds since the start time, rounded down. It
      already returns base-36 text, which `_toBase36` passes through
      unchanged (a string is not an integer). */
  function Offset(t: Telemetry, now: int): int
  {
    (now - t.startTime.GetOr(0)) / 1000
  }

  /** The text `log` pushes: `<offset>,<token>,<value>` for a known action,
      `<offset>,6,<action> <value>` otherwise. `value` is the template
      literal's rendering of the value. */
  function Entry(t: Telemetry, action: string, value: string, now: int): string
  {
    var ts := ToBase36(Offset(t, now));
    match Encoding(action)
    case Some(token) => ts + "," + token + "," + value
    case None => ts + "," + GeneralToken + "," + (action + " " + value)
  }

  /** `log(action, value)`: appends exactly one entry to the buffer. */
  function Log(t: Telemetry, action: string, value: string, now: int): (r: Telemetry)
    ensures |r.eventBuffer| == |t.eventBuffer| + 1
    ensures r.eventBuffer[..|t.eventBuffer|] == t.eventBuffer
    ensures r.startTime == t.startTime
  {
    t.(eventBuffer := t.eventBuffer + [Entry(t, action, value, now)])
  }

  /** The entry of an unknown action: token "6", then the action name, a
      space, and the value. */
  lemma EntryOfUnknownAction(t: Telemetry, action: string, value: string, now: int)
    requires Encoding(action).None?
    ensures Entry(t, action, value, now) == ToBase36(Offset(t, now)) + "," + GeneralToken + "," + action + " " + value
  {
    var ts := ToBase36(Offset(t, now));
    assert ts + "," + GeneralToken + "," + (action + " " + value) == ts + "," + GeneralToken + "," + action + " " + value;
  }

  /** An unknown action is filed under GENERAL: the new entry's token field
      is "6" and its detail is the action name, a space, and the value. */
  lemma LogUnknownAction(t: Telemetry, action: string, value: string, now: int)
    requires Encoding(action).None?
    ensures var e := Log(t, action, value, now).eventBuffer[|t.eventBuffer|];
            e == ToBase36(Offset(t, now)) + "," + GeneralToken + "," + action + " " + value
  {
    assert Log(t, action, value, now).eventBuffer[|t.eventBuffer|] == Entry(t, action, value, now);
    EntryOfUnknownAction(t, action, value, now);
  }

  /** A known action is filed under its own token. */
  lemma LogKnownAction(t: Telemetry, action: string, value: string, now: int)
    requires Encoding(action).Some?
    ensures var e := Log(t, action, value, now).eventBuffer[|t.eventBuffer|];
            e == ToBase36(Offset(t, now)) + "," + Encoding(action).value + "," + value
  {
    assert Log(t, action, value, now).eventBuffer[|t.eventBuffer|] == Entry(t, action, value, now);
  }

  /** `report(str)`: a stub that returns an empty list for any input. */
  function Report(str: string): (rows: seq<string>)
    ensures |rows| == 0
  {
    []
  }

  // ---------------------------------------------------------------------
  // pack / unpack

  /** The raw frame this revision builds: the (undefined) user id, the
      start time, the deltas and the unsaved buffer. */
  function Raw(t: Telemetry, deltas: seq<Delta>): string
  {
    RawFrame(UserIDField, t.startTime, deltas, t.eventBuffer)
  }

  /** `pack(deltaArray)`: always attempts compression (the enable flags are
      never consulted) and returns the raw frame when the compressor yields
      "". It reads the buffer without clearing it, so the state is not
      part of the result. */
  function Pack(t: Telemetry, deltas: seq<Delta>, gzip: string -> string): (r: string)
    ensures gzip(Raw(t, deltas)) == "" ==> r == Raw(t, deltas)
    ensures gzip(Raw(t, deltas)) != "" ==> r == gzip(Raw(t, deltas))
  {
    var raw := RawFrame(UserIDField, t.startTime, deltas, t.eventBuffer);
    var compressed := gzip(raw);
    if compressed != "" then compressed else raw
  }

  /** `unpack(saveString)`: `null` for a missing or empty save, `null`
      whenever decompression throws (there is no raw fallback), then the
      shared frame parser. `gunzip` is the opaque base64-then-gunzip step. */
  function Unpack(saveString: Option<string>, gunzip: string -> Option<string>): (r: Option<SaveRecord>)
    ensures saveString.None? || saveString == Some("") ==> r.None?
    ensures saveString.Some? && gunzip(saveString.value).None? ==> r.None?
    ensures saveString.Some? && saveString.value != "" && gunzip(saveString.value).Some?
            ==> r == ParseFrame(gunzip(saveString.value).value)
  {
    if saveString.None? || saveString.value == "" then None
    else
      match gunzip(saveString.value)
      case None => None
      case Some(raw) => ParseFrame(raw)
  }

  /** Round trip: when the compressor succeeds and the decompressor
      inverts it on this frame, unpacking what `pack` returned recovers the
      empty user id, the start time, every delta and the whole buffer. */
  lemma RoundTrip(t: Telemetry, deltas: seq<Delta>, gzip: string -> string, gunzip: string -> Option<string>)
    requires forall i :: 0 <= i < |deltas| ==> RecoverableDelta(deltas[i])
    requires RecoverableLog(t.eventBuffer)
    requires gzip(Raw(t, deltas)) != "" && gunzip(gzip(Raw(t, deltas))) == Some(Raw(t, deltas))
    ensures Unpack(Some(Pack(t, deltas, gzip)), gunzip)
            == Some(SaveRecord(Version, UserIDField, StartBack(t.startTime), deltas, t.eventBuffer))
  {
    ParseFrameRoundTrip(UserIDField, t.startTime, deltas, t.eventBuffer);
  }

  /** The raw fallback is write-only: when compression fails, `pack`
      returns the raw frame, and `unpack` of that frame is `null` as soon
      as the decompressor rejects it (as it rejects any text that is not
      base64, and a frame contains `^`). */
  lemma RawFallbackIsNotRecovered(t: Telemetry, deltas: seq<Delta>, gzip: string -> string, gunzip: string -> Option<string>)
    requires gzip(Raw(t, deltas)) == ""
    requires gunzip(Raw(t, deltas)).None?
    ensures Pack(t, deltas, gzip) == Raw(t, deltas)
    ensures Unpack(Some(Pack(t, deltas, gzip)), gunzip).None?
  {
  }
}
