/** The current codec's event table (`_encoding` and `_decoding` in
    `journaler`): 27 event names, each with a one-character token. */
module Events {
  import opened Optional
  import opened Table

  /** `_encoding`: event name to one-character token, in source order. */
  const EncodingTable: Table := [
    ("COURSE_COMPLETE", "0"),
    ("PAGE_COMPLETE", "1"),
    ("COURSE_LOADED", "2"),
    ("STARTED_NEW_COURSE", "3"),
    ("QUIZ_SUBMITTED", "4"),
    ("QUESTIONS_RENDERED", "5"),
    ("GENERAL", "6"),
    ("SCROLLED", "7"),
    ("PAGE_NEXT", "8"),
    ("PAGE_PREV", "9"),
    ("VIDEO_PLAY", "a"),
    ("VIDEO_PAUSE", "b"),
    ("VIDEO_FORWARD", "c"),
    ("VIDEO_REWIND", "d"),
    ("VIDEO_SPEED_CHANGE", "e"),
    ("VIDEO_FULL_SCREEN", "f"),
    ("VIDEO_NORMAL_SCREEN", "g"),
    ("VIDEO_PROGRESS", "h"),
    ("VIDEO_HEARTBEAT", "i"),
    ("VISIBILITY_HIDDEN", "j"),
    ("VISIBILITY_VISIBLE", "k"),
    ("USER_IDLE", "l"),
    ("USER_ACTIVE", "m"),
    ("DIAGNOSTIC", "n"),
    ("VIDEO_MUTED", "o"),
    ("CLICK_OFF", "p"),
    ("CLICK_BACK", "q")]

  /** `_decoding`: token back to event name, written out separately. */
  const DecodingTable: Table := [
    ("0", "COURSE_COMPLETE"),
    ("1", "PAGE_COMPLETE"),
    ("2", "COURSE_LOADED"),
    ("3", "STARTED_NEW_COURSE"),
    ("4", "QUIZ_SUBMITTED"),
    ("5", "QUESTIONS_RENDERED"),
    ("6", "GENERAL"),
    ("7", "SCROLLED"),
    ("8", "PAGE_NEXT"),
    ("9", "PAGE_PREV"),
    ("a", "VIDEO_PLAY"),
    ("b", "VIDEO_PAUSE"),
    ("c", "VIDEO_FORWARD"),
    ("d", "VIDEO_REWIND"),
    ("e", "VIDEO_SPEED_CHANGE"),
    ("f", "VIDEO_FULL_SCREEN"),
    ("g", "VIDEO_NORMAL_SCREEN"),
    ("h", "VIDEO_PROGRESS"),
    ("i", "VIDEO_HEARTBEAT"),
    ("j", "VISIBILITY_HIDDEN"),
    ("k", "VISIBILITY_VISIBLE"),
    ("l", "USER_IDLE"),
    ("m", "USER_ACTIVE"),
    ("n", "DIAGNOSTIC"),
    ("o", "VIDEO_MUTED"),
    ("p", "CLICK_OFF"),
    ("q", "CLICK_BACK")]

  function Encoding(action: string): Option<string>
  {
    Lookup(EncodingTable, action)
  }

  function Decoding(token: string): Option<string>
  {
    Lookup(DecodingTable, token)
  }

  /** The two tables list the same 27 pairs, each the other way round. */
  lemma TablesMirror()
    ensures |EncodingTable| == 27
    ensures Mirrors(EncodingTable, DecodingTable)
  {
  }

  /** No event name is listed twice (checked in three ranges of the first
      position, which keeps each proof small). */
  lemma DistinctNames()
    ensures DistinctKeys(EncodingTable)
  {
    DistinctNamesFrom0();
    DistinctNamesFrom5();
    DistinctNamesFrom11();
  }

  lemma DistinctNamesFrom0()
    ensures forall i, k :: 0 <= i < 5 && i < k < |EncodingTable| ==> EncodingTable[i].0 != EncodingTable[k].0
  {
  }

  lemma DistinctNamesFrom5()
    ensures forall i, k :: 5 <= i < 11 && i < k < |EncodingTable| ==> EncodingTable[i].0 != EncodingTable[k].0
  {
  }

  lemma DistinctNamesFrom11()
    ensures forall i, k :: 11 <= i < k < |EncodingTable| ==> EncodingTable[i].0 != EncodingTable[k].0
  {
  }

  /** No token is listed twice: the tokens are single characters in
      strictly increasing order. */
  lemma DistinctTokens()
    ensures DistinctKeys(DecodingTable)
  {
    TokensAscend();
    AscendingKeysDistinct(DecodingTable);
  }

  lemma TokensAscend()
    ensures forall i :: 0 <= i < |DecodingTable| ==> |DecodingTable[i].0| == 1
    ensures forall i :: 0 <= i < |DecodingTable| - 1 ==> DecodingTable[i].0[0] < DecodingTable[i + 1].0[0]
  {
  }

  const DiagnosticToken: string := "n"

  /** The DIAGNOSTIC token decodes to its name. */
  lemma DiagnosticDecodes()
    ensures Decoding(DiagnosticToken) == Some("DIAGNOSTIC")
  {
    DistinctTokens();
    assert DecodingTable[23] == (DiagnosticToken, "DIAGNOSTIC");
    FindDistinct(DecodingTable, 23);
  }

  /** Every token is a single character other than the comma. */
  lemma TokensAreSingleCharacters()
    ensures forall i :: 0 <= i < |EncodingTable| ==> |EncodingTable[i].1| == 1 && EncodingTable[i].1[0] != ','
  {
  }

  /** Decoding an encoded name gives the name back; the token is one
      character other than the comma. */
  lemma EncodeThenDecode(action: string)
    ensures Encoding(action).Some? ==> Decoding(Encoding(action).value) == Some(action)
    ensures Encoding(action).Some? ==> |Encoding(action).value| == 1 && Encoding(action).value[0] != ','
  {
    TablesMirror();
    DistinctTokens();
    TokensAreSingleCharacters();
    LookupThenBack(EncodingTable, DecodingTable, action);
  }

  /** Encoding a decoded name gives the token back. */
  lemma DecodeThenEncode(token: string)
    ensures Decoding(token).Some? ==> Encoding(Decoding(token).value) == Some(token)
  {
    TablesMirror();
    MirrorsSymmetric(EncodingTable, DecodingTable);
    DistinctNames();
    LookupThenBack(DecodingTable, EncodingTable, token);
  }
}
