/** The `^`-delimited save frame shared by both codec revisions:
    `version ^ userID ^ base36(start) ^ delta ... ^ log~log~...`,
    and the `sanitize` filter that keeps delimiters out of free text. */
module Frame {
  import opened Optional
  import opened Text
  import opened Base36

  const Delimiter: char := '^'
  const LogDelimiter: char := '~'
  const LogHeadDelimiter: char := '`'
  const Version: string := "v1"

  /** One slot of the delta array: a JavaScript number (integers only in
      this model) or a string, typically an already-encoded JSON blob. */
  datatype Delta = Num(n: int) | Str(s: string)

  /** What `pack` and `unpack` exchange: the envelope fields around the
      delta array and the interaction log. */
  datatype SaveRecord = SaveRecord(
    version: string,
    userID: string,
    startTime: Option<int>,
    delta: seq<Delta>,
    log: seq<string>)

  /** `_toBase36(d)` for numbers, the string itself otherwise. */
  function EncodeDelta(d: Delta): string
  {
    match d
    case Num(n) => ToBase36(n)
    case Str(s) => s
  }

  /** Parses a field as base 36 and keeps the text verbatim when the
      parse yields `NaN`. */
  function DecodeDelta(field: string): Delta
  {
    match ParseInt36(field)
    case Some(n) => Num(n)
    case None => Str(field)
  }

  function EncodeDeltas(ds: seq<Delta>): (r: seq<string>)
    ensures |r| == |ds|
    ensures forall i :: 0 <= i < |ds| ==> r[i] == EncodeDelta(ds[i])
  {
    seq(|ds|, i requires 0 <= i < |ds| => EncodeDelta(ds[i]))
  }

  function DecodeDeltas(fields: seq<string>): (r: seq<Delta>)
    ensures |r| == |fields|
    ensures forall i :: 0 <= i < |fields| ==> r[i] == DecodeDelta(fields[i])
  {
    seq(|fields|, i requires 0 <= i < |fields| => DecodeDelta(fields[i]))
  }

  /** The start-time field: `_toBase36(null)` is the text "null" before the
      codec has been initialised. */
  function StartField(start: Option<int>): string
  {
    match start
    case Some(t) => ToBase36(t)
    case None => "null"
  }

  /** The `^`-separated fields of a frame, in order. */
  function Fields(userID: string, start: Option<int>, deltas: seq<Delta>, log: seq<string>): seq<string>
  {
    [Version, userID, StartField(start)] + EncodeDeltas(deltas) + [Join(log, LogDelimiter)]
  }

  /** The raw (uncompressed) save string that `pack` builds. */
  function RawFrame(userID: string, start: Option<int>, deltas: seq<Delta>, log: seq<string>): string
  {
    Join(Fields(userID, start, deltas, log), Delimiter)
  }

  /** `logRaw.length > 0 ? logRaw.split("~") : []`. */
  function ParseLog(logRaw: string): (r: seq<string>)
    ensures Join(r, LogDelimiter) == logRaw
    ensures forall i :: 0 <= i < |r| ==> LogDelimiter !in r[i]
  {
    JoinSplit(logRaw, LogDelimiter);
    if |logRaw| > 0 then Split(logRaw, LogDelimiter) else []
  }

  /** The part of `unpack` after decompression: split on `^`, reject fewer
      than four fields or a wrong version, take field 1 as the user id,
      field 2 as the base-36 start, the last field as the `~`-joined log,
      and everything in between as the delta array. */
  function ParseFrame(raw: string): (r: Option<SaveRecord>)
    ensures r.None? <==> |Split(raw, Delimiter)| < 4 || Split(raw, Delimiter)[0] != Version
    ensures r.Some? ==> r.value.version == Version
    ensures r.Some? ==> |r.value.delta| == |Split(raw, Delimiter)| - 4
  {
    var parts := Split(raw, Delimiter);
    if |parts| < 4 || parts[0] != Version then None
    else
      Some(SaveRecord(
        parts[0],
        parts[1],
        ParseInt36(parts[2]),
        DecodeDeltas(parts[3..|parts| - 1]),
        ParseLog(parts[|parts| - 1])))
  }

  /** A delta that survives the frame: any integer, or a string without
      `^` that `parseInt(.., 36)` rejects. */
  predicate RecoverableDelta(d: Delta)
  {
    d.Num? || (Delimiter !in d.s && ParseInt36(d.s).None?)
  }

  /** A log that survives the frame: entries without `^` or `~`, and not the
      single empty entry (which joins to the same "" as the empty log). */
  predicate RecoverableLog(log: seq<string>)
  {
    && (forall i :: 0 <= i < |log| ==> Delimiter !in log[i] && LogDelimiter !in log[i])
    && log != [""]
  }

  /** What a start field reads back as: the start itself, or for the text
      "null" whatever `parseInt("null", 36)` gives. */
  function StartBack(start: Option<int>): Option<int>
  {
    match start
    case Some(t) => Some(t)
    case None => ParseInt36("null")
  }

  lemma DecodeEncodeDelta(d: Delta)
    requires RecoverableDelta(d)
    ensures DecodeDelta(EncodeDelta(d)) == d
  {
    if d.Num? {
      ParseToBase36(d.n);
    }
  }

  lemma NoDelimiterInBase36(n: int)
    ensures Delimiter !in ToBase36(n) && LogDelimiter !in ToBase36(n)
  {
    var r := ToBase36(n);
    Base36Alphabet(n);
    forall i | 0 <= i < |r|
      ensures r[i] != Delimiter && r[i] != LogDelimiter
    {
      assert r[i] == '-' || IsDigit(r[i]);
    }
  }

  lemma {:induction false} LogRoundTrip(log: seq<string>)
    requires RecoverableLog(log)
    ensures ParseLog(Join(log, LogDelimiter)) == log
  {
    if |log| > 0 {
      SplitJoin(log, LogDelimiter);
    }
  }

  lemma JoinHasNoDelimiter(parts: seq<string>, sep: char, d: char)
    requires d != sep
    requires forall i :: 0 <= i < |parts| ==> d !in parts[i]
    ensures d !in Join(parts, sep)
  {
  }

  /** Round trip of the frame: parsing what `pack` frames gives back the
      user id, the start time, every delta and every log entry. */
  lemma ParseFrameRoundTrip(userID: string, start: Option<int>, deltas: seq<Delta>, log: seq<string>)
    requires Delimiter !in userID
    requires forall i :: 0 <= i < |deltas| ==> RecoverableDelta(deltas[i])
    requires RecoverableLog(log)
    ensures ParseFrame(RawFrame(userID, start, deltas, log))
            == Some(SaveRecord(Version, userID, StartBack(start), deltas, log))
  {
    var fields := Fields(userID, start, deltas, log);
    var encoded := EncodeDeltas(deltas);
    forall i | 0 <= i < |deltas|
      ensures Delimiter !in encoded[i]
    {
      if deltas[i].Num? { NoDelimiterInBase36(deltas[i].n); }
    }
    match start {
      case Some(t) => NoDelimiterInBase36(t);
      case None =>
    }
    JoinHasNoDelimiter(log, LogDelimiter, Delimiter);
    assert forall i :: 0 <= i < |fields| ==> Delimiter !in fields[i];
    SplitJoin(fields, Delimiter);
    var parts := Split(RawFrame(userID, start, deltas, log), Delimiter);
    assert parts == fields;
    assert parts[3..|parts| - 1] == encoded;
    forall i | 0 <= i < |deltas|
      ensures DecodeDelta(encoded[i]) == deltas[i]
    {
      DecodeEncodeDelta(deltas[i]);
    }
    assert DecodeDeltas(encoded) == deltas;
    LogRoundTrip(log);
    match start {
      case Some(t) => ParseToBase36(t);
      case None =>
    }
  }

  /** An uninitialised start time is framed as "null", which happens to be
      a valid base-36 numeral: it reads back as 1112745, not as absent. */
  lemma NullStartReadsBackAsNumber()
    ensures StartBack(None) == Some(1112745)
  {
    var s := "null";
    assert forall i :: 0 <= i < |s| ==> IsDigit(s[i]);
    assert s[..3] == "nul";
    assert "nul"[..2] == "nu";
    assert "nu"[..1] == "n";
    assert "n"[..0] == "";
    assert DigitsValue("n") == 23;
    assert DigitsValue("nu") == 858;
    assert DigitsValue("nul") == 30909;
    assert DigitsValue(s) == 1112745;
    ParseDigits(s);
  }

  /** A string the quiz code stores as JSON (an object or array literal)
      cannot be mistaken for a base-36 number. */
  lemma JsonBlobIsRecoverable(s: string)
    requires |s| > 0 && (s[0] == '{' || s[0] == '[' || s[0] == '"')
    requires Delimiter !in s
    ensures RecoverableDelta(Str(s))
  {
    ParseRejects(s);
  }

  // ---------------------------------------------------------------------
  // sanitize

  predicate IsFrameDelimiter(c: char)
  {
    c == Delimiter || c == LogDelimiter || c == LogHeadDelimiter
  }

  /** Reference definition: the characters of `s` that are not one of the
      three delimiters, in their original order. */
  function WithoutDelimiters(s: string): string
  {
    if |s| == 0 then ""
    else WithoutDelimiters(s[..|s| - 1]) + (if IsFrameDelimiter(s[|s| - 1]) then "" else [s[|s| - 1]])
  }

  /** `sanitize(str)`: walks `str` and keeps every character that is not a
      delimiter. */
  method Sanitize(str: string) returns (clean: string)
    ensures clean == WithoutDelimiters(str)
  {
    clean := "";
    var i := 0;
    while i < |str|
      invariant 0 <= i <= |str|
      invariant clean == WithoutDelimiters(str[..i])
    {
      assert str[..i + 1][..i] == str[..i];
      if !IsFrameDelimiter(str[i]) {
        clean := clean + [str[i]];
      }
      i := i + 1;
    }
    assert str[..|str|] == str;
  }

  lemma {:induction false} WithoutDelimitersConcat(a: string, b: string)
    ensures WithoutDelimiters(a + b) == WithoutDelimiters(a) + WithoutDelimiters(b)
    decreases |b|
  {
    if |b| > 0 {
      var b' := b[..|b| - 1];
      assert (a + b)[..|a + b| - 1] == a + b';
      WithoutDelimitersConcat(a, b');
    } else {
      assert a + b == a;
    }
  }

  /** The filter removes exactly the three delimiters and keeps every other
      character in order: it acts character by character and distributes
      over concatenation. */
  lemma WithoutDelimitersKeepsOthers(a: string, b: string, c: char)
    ensures WithoutDelimiters(a + b) == WithoutDelimiters(a) + WithoutDelimiters(b)
    ensures WithoutDelimiters([c]) == if IsFrameDelimiter(c) then "" else [c]
  {
    WithoutDelimitersConcat(a, b);
    assert [c][..0] == "";
  }

  lemma {:induction false} WithoutDelimitersHasNone(s: string)
    ensures forall i :: 0 <= i < |WithoutDelimiters(s)| ==> !IsFrameDelimiter(WithoutDelimiters(s)[i])
  {
    if |s| > 0 {
      WithoutDelimitersHasNone(s[..|s| - 1]);
    }
  }

  lemma {:induction false} WithoutDelimitersOfClean(s: string)
    requires forall i :: 0 <= i < |s| ==> !IsFrameDelimiter(s[i])
    ensures WithoutDelimiters(s) == s
  {
    if |s| > 0 {
      WithoutDelimitersOfClean(s[..|s| - 1]);
      assert s[..|s| - 1] + [s[|s| - 1]] == s;
    }
  }

  /** Sanitizing twice is the same as sanitizing once. */
  lemma WithoutDelimitersIdempotent(s: string)
    ensures WithoutDelimiters(WithoutDelimiters(s)) == WithoutDelimiters(s)
  {
    WithoutDelimitersHasNone(s);
    WithoutDelimitersOfClean(WithoutDelimiters(s));
  }
}
