/** The agent's data vault: a `;`-delimited text file to which every scan
    session appends one line per access point. */
module Vault {
  import opened Common
  import opened Text
  import opened Scan

  /** The column names, in the order the cells of a record are written. */
  const HeaderNames: seq<string> := ["ID_LOCALITY", "SSID", "MAC / BSSID", "RSSI", "CHANNEL", "HIDDEN", "SECURITY"]

  /** The column-name row written when the file is created. */
  const Header: string := Join(HeaderNames, ";")

  /** Written in place of an SSID whose decoding raised. */
  const DecodingError: string := "Decoding_Error"

  /** The SSID column: the decoded name with every double quote removed.
      `decode` stands for the device's lenient UTF-8 decoding of the raw
      SSID bytes; `None` is the case where it raised. */
  function SsidText(ap: AccessPoint, decode: seq<Byte> -> Option<string>): (s: string)
    ensures !HasChar(s, '"')
    ensures decode(ap.ssid).Some? && !HasChar(decode(ap.ssid).value, '"') ==> s == decode(ap.ssid).value
  {
    match decode(ap.ssid)
    case Some(text) => RemoveChar(text, '"')
    case None => DecodingError
  }

  /** The HIDDEN column: 1 for a hidden network, 0 otherwise. */
  function HiddenFlag(hidden: bool): (flag: string)
    ensures ParseInt(flag) == Some(if hidden then 1 else 0)
  {
    if hidden then "1" else "0"
  }

  /** The seven cells of one record: locality id, the SSID between double
      quotes, the BSSID, RSSI (the tuple's fourth element), channel (its
      third), the hidden flag and the security code. */
  function RecordCells(localityId: int, ap: AccessPoint, decode: seq<Byte> -> Option<string>): (cells: seq<string>)
    ensures |cells| == |HeaderNames|
    ensures |cells[1]| >= 2 && cells[1][0] == '"' && cells[1][|cells[1]| - 1] == '"'
    ensures !HasChar(cells[1][1..|cells[1]| - 1], '"')
  {
    var q := "\"" + SsidText(ap, decode) + "\"";
    assert q[1..|q| - 1] == SsidText(ap, decode);
    [IntToString(localityId), q, FormatBssid(ap.bssid),
     IntToString(ap.rssi), IntToString(ap.channel), HiddenFlag(ap.hidden), IntToString(ap.security)]
  }

  /** One record: `id;"ssid";bssid;rssi;channel;hidden;security`. */
  function EncodeLine(localityId: int, ap: AccessPoint, decode: seq<Byte> -> Option<string>): (line: string)
    ensures IntToString(localityId) + ";\"" <= line
  {
    var cells := RecordCells(localityId, ap, decode);
    assert Join(cells, ";") == cells[0] + ";" + Join(cells[1..], ";");
    assert Join(cells[1..], ";") == cells[1] + ";" + Join(cells[2..], ";");
    Join(cells, ";")
  }

  /** The records of one session, in the order of `results`. */
  function EncodeAll(localityId: int, results: seq<AccessPoint>, decode: seq<Byte> -> Option<string>): (lines: seq<string>)
    ensures |lines| == |results|
    ensures forall i :: 0 <= i < |results| ==> lines[i] == EncodeLine(localityId, results[i], decode)
  {
    seq(|results|, i requires 0 <= i < |results| => EncodeLine(localityId, results[i], decode))
  }

  /** Encoding one more access point appends its record. */
  lemma EncodeAllExtend(localityId: int, results: seq<AccessPoint>, i: nat, decode: seq<Byte> -> Option<string>)
    requires i < |results|
    ensures EncodeAll(localityId, results[..i + 1], decode)
      == EncodeAll(localityId, results[..i], decode) + [EncodeLine(localityId, results[i], decode)]
  {
  }

  /** The text of a file holding these lines, each ended by a newline. */
  function FileText(lines: seq<string>): string
  {
    if lines == [] then "" else lines[0] + "\n" + FileText(lines[1..])
  }

  /** The vault file: whether it exists and the lines it holds. */
  class VaultFile {
    var present: bool
    var lines: seq<string>

    constructor ()
      ensures !present && lines == []
    {
      present := false;
      lines := [];
    }

    /** The file's contents. */
    function Contents(): string
      reads this
    {
      FileText(lines)
    }

    /** save_to_csv: the header goes in first exactly when the file did not
        exist; then one record per access point, appended in order. Lines
        already in the file are left as they were. */
    method SaveToCsv(results: seq<AccessPoint>, localityId: int, decode: seq<Byte> -> Option<string>)
      modifies this
      ensures present
      ensures lines == old(lines) + (if old(present) then [] else [Header]) + EncodeAll(localityId, results, decode)
    {
      var headerNeeded := !present;
      present := true;
      if headerNeeded {
        lines := lines + [Header];
      }
      ghost var start := lines;
      for i := 0 to |results|
        invariant present
        invariant lines == start + EncodeAll(localityId, results[..i], decode)
      {
        var ap := results[i];
        var line := EncodeLine(localityId, ap, decode);
        lines := lines + [line];
        EncodeAllExtend(localityId, results, i, decode);
      }
      assert results[..|results|] == results;
    }
  }
}
