/**
 The two lookups of `audio_generator.py` over CSV files, with the file given
 as its already-tokenised rows (the header included) or `None` when it
 could not be opened or read.
 */
module Rows {
  import opened Common
  import opened Strings

  type Row = seq<string>

  /** A Tencent Cloud key pair, as read from the secret-key file. */
  datatype Credentials = Credentials(secretId: string, secretKey: string)

  /** `load_credentials_from_csv`: only the first row after the header is
      looked at; it supplies the pair when it has at least two columns.
      `None` stands for the `(None, None)` the source returns. */
  function LoadCredentials(file: Option<seq<Row>>): (c: Option<Credentials>)
    ensures c.Some? <==> file.Some? && |file.value| >= 2 && |file.value[1]| >= 2
    ensures c.Some? ==> c.value == Credentials(file.value[1][0], file.value[1][1])
  {
    match file
    case None => None
    case Some(rows) =>
      if |rows| >= 2 && |rows[1]| >= 2 then Some(Credentials(rows[1][0], rows[1][1]))
      else None
  }

  /** Rows after the first data row never matter, even when the first data
      row is too short and a later one would do. */
  lemma CredentialsIgnoreLaterRows(rows: seq<Row>, later: seq<Row>)
    requires |rows| >= 2
    ensures LoadCredentials(Some(rows + later)) == LoadCredentials(Some(rows[..2]))
  {
    assert (rows + later)[1] == rows[..2][1];
  }

  /** The header row never supplies credentials. */
  lemma CredentialsIgnoreHeader(header: Row, other: Row, rows: seq<Row>)
    ensures LoadCredentials(Some([header] + rows)) == LoadCredentials(Some([other] + rows))
  {
  }

  /** The check `text_to_speech` makes before sending any request: both
      parts present and non-empty. */
  predicate Usable(c: Option<Credentials>)
  {
    c.Some? && c.value.secretId != "" && c.value.secretKey != ""
  }

  /** Whether a voice-table row names the voice whose id is `key`. */
  predicate RowMatches(row: Row, key: string)
  {
    |row| >= 2 && Strip(row[0]) == key
  }

  function MatchTest(key: string): Row -> bool
  {
    row => RowMatches(row, key)
  }

  /** The index of the first row that matches `key`, or `|rows|` when none does. */
  function FirstMatch(rows: seq<Row>, key: string): nat
  {
    FirstWhere(rows, MatchTest(key))
  }

  /** `get_voice_name(voice_id)`: the stripped name of the first data row
      whose stripped first column is the id, and the id itself when the file
      is missing or unreadable or no row matches. */
  function GetVoiceName(voiceId: int, file: Option<seq<Row>>): (name: string)
    ensures file.None? ==> name == IntToString(voiceId)
    ensures file.Some? && file.value != [] && FirstMatch(file.value[1..], IntToString(voiceId)) < |file.value| - 1
      ==> name == Strip(file.value[1 + FirstMatch(file.value[1..], IntToString(voiceId))][1])
    ensures file.Some? && (file.value == [] || FirstMatch(file.value[1..], IntToString(voiceId)) == |file.value| - 1)
      ==> name == IntToString(voiceId)
  {
    var key := IntToString(voiceId);
    match file
    case None => key
    case Some(rows) =>
      if rows == [] then key
      else
        var k := FirstMatch(rows[1..], key);
        if k < |rows| - 1 then Strip(rows[1..][k][1]) else key
  }

  /** A voice listed in the table is named by its first listing; the
      header row is never taken for a voice. */
  lemma VoiceNameFirstListing(voiceId: int, header: Row, rows: seq<Row>, i: nat)
    requires i < |rows| && RowMatches(rows[i], IntToString(voiceId))
    requires forall j :: 0 <= j < i ==> !RowMatches(rows[j], IntToString(voiceId))
    ensures GetVoiceName(voiceId, Some([header] + rows)) == Strip(rows[i][1])
  {
    var file := [header] + rows;
    assert file[1..] == rows;
    var k := FirstMatch(rows, IntToString(voiceId));
    assert k == i;
  }

  /** An unlisted voice is named by its id. */
  lemma VoiceNameUnlisted(voiceId: int, header: Row, rows: seq<Row>)
    requires forall j :: 0 <= j < |rows| ==> !RowMatches(rows[j], IntToString(voiceId))
    ensures GetVoiceName(voiceId, Some([header] + rows)) == IntToString(voiceId)
  {
    assert ([header] + rows)[1..] == rows;
  }
}
