/** The vault format's round trip: what the agent writes, the HQ reads back
    field for field. */
module RoundTrip {
  import opened Common
  import opened Text
  import opened Scan
  import opened Vault
  import opened Csv
  import opened Store
  import opened Ingest

  /** The observation the HQ should build from one written record. */
  function Expected(ts: string, localityId: int, ap: AccessPoint, decode: seq<Byte> -> Option<string>): Observation
  {
    Observation(ts, localityId, Some(SsidText(ap, decode)), Some(FormatBssid(ap.bssid)),
                ap.rssi, ap.channel, if ap.hidden then 1 else 0, ap.security)
  }

  // ----- lines -----

  /** Reading back the text of a file whose lines hold no line break gives
      those lines. */
  lemma {:induction false} SplitFileText(lines: seq<string>)
    requires forall i :: 0 <= i < |lines| ==> NoBreak(lines[i])
    ensures SplitLines(FileText(lines)) == lines
    decreases |lines|
  {
    if lines != [] {
      SplitAtLf(lines[0], FileText(lines[1..]));
      SplitFileText(lines[1..]);
      assert [lines[0]] + lines[1..] == lines;
    }
  }

  lemma {:induction false} JoinNoBreak(cells: seq<string>, sep: string)
    requires NoBreak(sep)
    requires forall i :: 0 <= i < |cells| ==> NoBreak(cells[i])
    ensures NoBreak(Join(cells, sep))
    decreases |cells|
  {
    if |cells| > 1 {
      JoinNoBreak(cells[1..], sep);
      var r := Join(cells[1..], sep);
      var s := cells[0] + sep + r;
      forall i | 0 <= i < |s| ensures !IsBreak(s[i]) {
        if i < |cells[0]| { assert s[i] == cells[0][i]; }
        else if i < |cells[0]| + |sep| { assert s[i] == sep[i - |cells[0]|]; }
        else { assert s[i] == r[i - |cells[0]| - |sep|]; }
      }
    }
  }

  // ----- cells -----

  predicate PlainText(s: string)
  {
    forall i :: 0 <= i < |s| ==> s[i] != ';' && s[i] != '"' && !IsBreak(s[i])
  }

  lemma PlainTextCell(s: string)
    requires PlainText(s)
    ensures PlainCell(s) && NoBreak(s) && CellValue(s) == s
  {
    if |s| > 0 { assert s[0] != '"'; }
  }

  lemma IntCell(i: int)
    ensures PlainCell(IntToString(i)) && NoBreak(IntToString(i)) && CellValue(IntToString(i)) == IntToString(i)
  {
    PlainTextCell(IntToString(i));
  }

  lemma BssidCell(bs: seq<Byte>)
    ensures PlainCell(FormatBssid(bs)) && NoBreak(FormatBssid(bs)) && CellValue(FormatBssid(bs)) == FormatBssid(bs)
  {
    FormatBssidChars(bs);
    PlainTextCell(FormatBssid(bs));
  }

  lemma SsidCell(s: string)
    requires !HasChar(s, '"') && NoBreak(s)
    ensures QuotedCell("\"" + s + "\"") && NoBreak("\"" + s + "\"") && CellValue("\"" + s + "\"") == s
  {
    var c := "\"" + s + "\"";
    assert c[1..|c| - 1] == s;
    forall i | 0 <= i < |c| ensures !IsBreak(c[i]) {
      if 0 < i < |c| - 1 { assert c[i] == s[i - 1]; }
    }
  }

  /** At least two cells, each well formed and free of line breaks, joined by
      `;`, make a line without breaks that reads back as their values. */
  lemma ReadJoined(cells: seq<string>, values: seq<string>)
    requires |cells| >= 2 && |values| == |cells|
    requires forall i :: 0 <= i < |cells| ==> WellFormedCell(cells[i]) && NoBreak(cells[i]) && CellValue(cells[i]) == values[i]
    ensures ParseRow(Join(cells, ";")) == values
    ensures NoBreak(Join(cells, ";"))
  {
    assert Join(cells, ";") == cells[0] + ";" + Join(cells[1..], ";");
    ParseJoined(cells);
    JoinNoBreak(cells, ";");
    assert seq(|cells|, i requires 0 <= i < |cells| => CellValue(cells[i])) == values;
  }

  lemma HeaderNamesPlain()
    ensures forall i :: 0 <= i < |HeaderNames| ==> PlainText(HeaderNames[i])
  {
    var h := HeaderNames;
    assert PlainText(h[0]) && PlainText(h[1]) && PlainText(h[2]) && PlainText(h[3]);
    assert PlainText(h[4]) && PlainText(h[5]) && PlainText(h[6]);
  }

  /** The written header reads back as the column names. */
  lemma HeaderRow()
    ensures ParseRow(Header) == HeaderNames
    ensures NoBreak(Header)
  {
    var h := HeaderNames;
    HeaderNamesPlain();
    forall i | 0 <= i < |h| ensures WellFormedCell(h[i]) && NoBreak(h[i]) && CellValue(h[i]) == h[i] {
      PlainTextCell(h[i]);
    }
    ReadJoined(h, h);
  }

  lemma LastIndexOfDistinct(names: seq<string>, k: nat)
    requires k < |names|
    requires forall i, j :: 0 <= i < j < |names| ==> names[i] != names[j]
    ensures LastIndexOf(names, names[k]) == k
  {
  }

  lemma HeaderNamesDistinct()
    ensures forall i, j :: 0 <= i < j < |HeaderNames| ==> HeaderNames[i] != HeaderNames[j]
  {
  }

  /** Under the written header, each column name finds its own cell. */
  lemma HeaderLookup(row: seq<string>)
    requires |row| == |HeaderNames|
    ensures Lookup(HeaderNames, row, "ID_LOCALITY") == Val(row[0])
    ensures Lookup(HeaderNames, row, "SSID") == Val(row[1])
    ensures Lookup(HeaderNames, row, "MAC / BSSID") == Val(row[2])
    ensures Lookup(HeaderNames, row, "RSSI") == Val(row[3])
    ensures Lookup(HeaderNames, row, "CHANNEL") == Val(row[4])
    ensures Lookup(HeaderNames, row, "HIDDEN") == Val(row[5])
    ensures Lookup(HeaderNames, row, "SECURITY") == Val(row[6])
  {
    HeaderNamesDistinct();
    forall k | 0 <= k < |HeaderNames| ensures LastIndexOf(HeaderNames, HeaderNames[k]) == k {
      LastIndexOfDistinct(HeaderNames, k);
    }
  }

  /** A written record reads back as its seven cells, the SSID without its quotes. */
  lemma RecordRow(localityId: int, ap: AccessPoint, decode: seq<Byte> -> Option<string>)
    requires NoBreak(SsidText(ap, decode))
    ensures ParseRow(EncodeLine(localityId, ap, decode)) ==
      [IntToString(localityId), SsidText(ap, decode), FormatBssid(ap.bssid), IntToString(ap.rssi),
       IntToString(ap.channel), HiddenFlag(ap.hidden), IntToString(ap.security)]
    ensures NoBreak(EncodeLine(localityId, ap, decode))
  {
    var cells := RecordCells(localityId, ap, decode);
    IntCell(localityId);
    SsidCell(SsidText(ap, decode));
    BssidCell(ap.bssid);
    IntCell(ap.rssi);
    IntCell(ap.channel);
    PlainTextCell(HiddenFlag(ap.hidden));
    IntCell(ap.security);
    var values := [IntToString(localityId), SsidText(ap, decode), FormatBssid(ap.bssid), IntToString(ap.rssi),
                   IntToString(ap.channel), HiddenFlag(ap.hidden), IntToString(ap.security)];
    forall i | 0 <= i < |cells| ensures WellFormedCell(cells[i]) && NoBreak(cells[i]) && CellValue(cells[i]) == values[i] { }
    ReadJoined(cells, values);
  }

  /** Seven cells under the written header, whose integer columns parse,
      convert to the observation holding those values. */
  lemma CoerceWrittenRow(ts: string, row: seq<string>)
    requires |row| == |HeaderNames|
    requires ParseInt(row[0]).Some? && ParseInt(row[3]).Some? && ParseInt(row[4]).Some?
    requires ParseInt(row[5]).Some? && ParseInt(row[6]).Some?
    ensures Coerce(ts, HeaderNames, row) == Some(Observation(ts, ParseInt(row[0]).value, Some(row[1]), Some(row[2]),
      ParseInt(row[3]).value, ParseInt(row[4]).value, ParseInt(row[5]).value, ParseInt(row[6]).value))
  {
    HeaderLookup(row);
  }

  /** One record under the written header converts back to the access
      point's locality id, SSID, BSSID, RSSI, channel, hidden flag and
      security code, stamped with the batch time. */
  lemma RecordRoundTrip(ts: string, localityId: int, ap: AccessPoint, decode: seq<Byte> -> Option<string>)
    requires NoBreak(SsidText(ap, decode))
    ensures Coerce(ts, HeaderNames, ParseRow(EncodeLine(localityId, ap, decode))) == Some(Expected(ts, localityId, ap, decode))
  {
    RecordRow(localityId, ap, decode);
    var row := ParseRow(EncodeLine(localityId, ap, decode));
    IntRoundTrip(localityId);
    IntRoundTrip(ap.rssi);
    IntRoundTrip(ap.channel);
    IntRoundTrip(ap.security);
    assert ParseInt(HiddenFlag(ap.hidden)) == Some(if ap.hidden then 1 else 0) by {
      if ap.hidden { IntRoundTrip(1); } else { IntRoundTrip(0); }
    }
    CoerceWrittenRow(ts, row);
  }

  /** The cells of each line, in order. */
  function Rows(lines: seq<string>): (rows: seq<seq<string>>)
    ensures |rows| == |lines|
  {
    if lines == [] then [] else Rows(lines[..|lines| - 1]) + [ParseRow(lines[|lines| - 1])]
  }

  /** After the header, non-empty lines are all read as rows. */
  lemma {:induction false} DataRowsOf(lines: seq<string>)
    requires |lines| >= 1
    requires forall i :: 1 <= i < |lines| ==> lines[i] != []
    ensures DataRows(lines) == Rows(lines[1..])
    decreases |lines|
  {
    if |lines| > 1 {
      var n := |lines| - 1;
      var init := lines[..n];
      DataRowsOf(init);
      assert init[1..] == lines[1..][..n - 1];
      assert lines[1..][n - 1] == lines[n];
    } else {
      assert lines[1..] == [];
    }
  }

  /** A file whose lines hold no break, and whose lines after the first are
      non-empty, reads back as its first line's cells, then one row of cells
      per further line. */
  lemma ReadLines(lines: seq<string>)
    requires |lines| >= 1
    requires forall i :: 0 <= i < |lines| ==> NoBreak(lines[i])
    requires forall i :: 1 <= i < |lines| ==> lines[i] != []
    ensures HeaderOf(SplitLines(FileText(lines))) == ParseRow(lines[0])
    ensures DataRows(SplitLines(FileText(lines))) == Rows(lines[1..])
  {
    SplitFileText(lines);
    DataRowsOf(lines);
  }

  lemma AcceptedSnoc(ts: string, names: seq<string>, init: seq<seq<string>>, row: seq<string>, o: Observation)
    requires Coerce(ts, names, row) == Some(o)
    ensures Accepted(ts, names, init + [row]) == Accepted(ts, names, init) + [o]
  {
    var rows := init + [row];
    assert rows[..|rows| - 1] == init;
    assert rows[|rows| - 1] == row;
  }

  lemma RowsSnoc(lines: seq<string>, line: string)
    ensures Rows(lines + [line]) == Rows(lines) + [ParseRow(line)]
  {
    assert (lines + [line])[..|lines|] == lines;
  }

  /** The observations expected from the written records. */
  function ExpectedAll(ts: string, localityId: int, aps: seq<AccessPoint>, decode: seq<Byte> -> Option<string>): (obs: seq<Observation>)
    ensures |obs| == |aps|
    ensures forall i :: 0 <= i < |aps| ==> obs[i] == Expected(ts, localityId, aps[i], decode)
  {
    if aps == [] then []
    else ExpectedAll(ts, localityId, aps[..|aps| - 1], decode) + [Expected(ts, localityId, aps[|aps| - 1], decode)]
  }

  /** Every written record is accepted, as the observation it was written from. */
  lemma {:induction false} AcceptedRecords(ts: string, localityId: int, aps: seq<AccessPoint>, decode: seq<Byte> -> Option<string>)
    requires forall i :: 0 <= i < |aps| ==> NoBreak(SsidText(aps[i], decode))
    ensures Accepted(ts, HeaderNames, Rows(EncodeAll(localityId, aps, decode))) == ExpectedAll(ts, localityId, aps, decode)
    decreases |aps|
  {
    if aps != [] {
      var n := |aps| - 1;
      var init := aps[..n];
      AcceptedRecords(ts, localityId, init, decode);
      EncodeAllExtend(localityId, aps, n, decode);
      assert aps[..n + 1] == aps;
      var line := EncodeLine(localityId, aps[n], decode);
      RowsSnoc(EncodeAll(localityId, init, decode), line);
      RecordRoundTrip(ts, localityId, aps[n], decode);
      AcceptedSnoc(ts, HeaderNames, Rows(EncodeAll(localityId, init, decode)), ParseRow(line), Expected(ts, localityId, aps[n], decode));
    }
  }

  /** Every record line of a freshly written vault is free of line breaks
      and non-empty. */
  lemma RecordLinesClean(localityId: int, aps: seq<AccessPoint>, decode: seq<Byte> -> Option<string>)
    requires forall i :: 0 <= i < |aps| ==> NoBreak(SsidText(aps[i], decode))
    ensures forall i :: 0 <= i < |aps| ==> NoBreak(EncodeLine(localityId, aps[i], decode)) && EncodeLine(localityId, aps[i], decode) != []
  {
    forall i | 0 <= i < |aps| ensures NoBreak(EncodeLine(localityId, aps[i], decode)) && EncodeLine(localityId, aps[i], decode) != [] {
      RecordRow(localityId, aps[i], decode);
    }
  }

  /** The header line followed by lines without breaks, none empty, reads
      back as the header's cells and one row per line. */
  lemma ReadWritten(header: string, written: seq<string>)
    requires NoBreak(header)
    requires forall i :: 0 <= i < |written| ==> NoBreak(written[i]) && written[i] != []
    ensures HeaderOf(SplitLines(FileText([header] + written))) == ParseRow(header)
    ensures DataRows(SplitLines(FileText([header] + written))) == Rows(written)
  {
    var lines := [header] + written;
    assert lines[1..] == written;
    ReadLines(lines);
  }

  /** The lines of a freshly written vault are read back as written: the
      header row, then one row of cells per record. */
  lemma VaultLines(localityId: int, aps: seq<AccessPoint>, decode: seq<Byte> -> Option<string>)
    requires forall i :: 0 <= i < |aps| ==> NoBreak(SsidText(aps[i], decode))
    ensures var lines := SplitLines(FileText([Header] + EncodeAll(localityId, aps, decode)));
      && HeaderOf(lines) == HeaderNames
      && DataRows(lines) == Rows(EncodeAll(localityId, aps, decode))
  {
    RecordLinesClean(localityId, aps, decode);
    HeaderRow();
    ReadWritten(Header, EncodeAll(localityId, aps, decode));
  }

  /** Round trip: a vault written from scratch by one session and read back
      at the HQ yields one observation per access point, in order, carrying
      the written values, whenever no decoded SSID holds a line break. */
  lemma VaultRoundTrip(ts: string, localityId: int, aps: seq<AccessPoint>, decode: seq<Byte> -> Option<string>)
    requires forall i :: 0 <= i < |aps| ==> NoBreak(SsidText(aps[i], decode))
    ensures Decode(ts, FileText([Header] + EncodeAll(localityId, aps, decode))) == ExpectedAll(ts, localityId, aps, decode)
  {
    VaultLines(localityId, aps, decode);
    AcceptedRecords(ts, localityId, aps, decode);
  }

  /** One session written to a vault file that did not exist, then the
      file's contents decoded at the HQ: the observations of the session's
      access points, in order. */
  method SessionThenIngest(ts: string, localityId: int, aps: seq<AccessPoint>, decode: seq<Byte> -> Option<string>)
    returns (obs: seq<Observation>)
    requires forall i :: 0 <= i < |aps| ==> NoBreak(SsidText(aps[i], decode))
    ensures obs == ExpectedAll(ts, localityId, aps, decode)
  {
    var vault := new VaultFile();
    vault.SaveToCsv(aps, localityId, decode);
    obs := Decode(ts, vault.Contents());
    VaultRoundTrip(ts, localityId, aps, decode);
  }

  /** The cells of two stretches of lines are those of each, in order. */
  lemma {:induction false} RowsAppend(a: seq<string>, b: seq<string>)
    ensures Rows(a + b) == Rows(a) + Rows(b)
    decreases |b|
  {
    if b == [] {
      assert a + b == a;
    } else {
      var b' := b[..|b| - 1];
      assert (a + b)[..|a + b| - 1] == a + b';
      assert (a + b)[|a + b| - 1] == b[|b| - 1];
      RowsAppend(a, b');
    }
  }

  /** A vault holding two sessions, the second appended without a second
      header, reads back as the observations of the first session followed
      by those of the second, each with its own locality id. */
  lemma TwoSessionsRoundTrip(ts: string, id1: int, a: seq<AccessPoint>, id2: int, b: seq<AccessPoint>,
                             decode: seq<Byte> -> Option<string>)
    requires forall i :: 0 <= i < |a| ==> NoBreak(SsidText(a[i], decode))
    requires forall i :: 0 <= i < |b| ==> NoBreak(SsidText(b[i], decode))
    ensures Decode(ts, FileText([Header] + EncodeAll(id1, a, decode) + EncodeAll(id2, b, decode)))
      == ExpectedAll(ts, id1, a, decode) + ExpectedAll(ts, id2, b, decode)
  {
    var e1, e2 := EncodeAll(id1, a, decode), EncodeAll(id2, b, decode);
    var written := e1 + e2;
    SessionsClean(id1, a, id2, b, decode);
    HeaderRow();
    assert [Header] + e1 + e2 == [Header] + written;
    ReadWritten(Header, written);
    calc {
      Decode(ts, FileText([Header] + written));
      Accepted(ts, HeaderNames, Rows(written));
      { RowsAppend(e1, e2); }
      Accepted(ts, HeaderNames, Rows(e1) + Rows(e2));
      { AcceptedAppend(ts, HeaderNames, Rows(e1), Rows(e2)); }
      Accepted(ts, HeaderNames, Rows(e1)) + Accepted(ts, HeaderNames, Rows(e2));
      { AcceptedRecords(ts, id1, a, decode); AcceptedRecords(ts, id2, b, decode); }
      ExpectedAll(ts, id1, a, decode) + ExpectedAll(ts, id2, b, decode);
    }
  }

  /** The record lines of two sessions, one after the other, are free of
      line breaks and non-empty. */
  lemma SessionsClean(id1: int, a: seq<AccessPoint>, id2: int, b: seq<AccessPoint>, decode: seq<Byte> -> Option<string>)
    requires forall i :: 0 <= i < |a| ==> NoBreak(SsidText(a[i], decode))
    requires forall i :: 0 <= i < |b| ==> NoBreak(SsidText(b[i], decode))
    ensures var written := EncodeAll(id1, a, decode) + EncodeAll(id2, b, decode);
      forall i :: 0 <= i < |written| ==> NoBreak(written[i]) && written[i] != []
  {
    var e1, e2 := EncodeAll(id1, a, decode), EncodeAll(id2, b, decode);
    RecordLinesClean(id1, a, decode);
    RecordLinesClean(id2, b, decode);
    assert forall i :: 0 <= i < |e1| ==> NoBreak(e1[i]) && e1[i] != [];
    assert forall i :: 0 <= i < |e2| ==> NoBreak(e2[i]) && e2[i] != [];
    CleanAppend(e1, e2);
  }

  /** Lines free of breaks and non-empty stay so when put one after the other. */
  lemma CleanAppend(x: seq<string>, y: seq<string>)
    requires forall i :: 0 <= i < |x| ==> NoBreak(x[i]) && x[i] != []
    requires forall i :: 0 <= i < |y| ==> NoBreak(y[i]) && y[i] != []
    ensures forall i :: 0 <= i < |x + y| ==> NoBreak((x + y)[i]) && (x + y)[i] != []
  {
  }

  /** Two sessions saved one after the other to a vault file that did not
      exist, then the file's contents decoded at the HQ. */
  method TwoSessionsThenIngest(ts: string, id1: int, a: seq<AccessPoint>, id2: int, b: seq<AccessPoint>,
                               decode: seq<Byte> -> Option<string>)
    returns (obs: seq<Observation>)
    requires forall i :: 0 <= i < |a| ==> NoBreak(SsidText(a[i], decode))
    requires forall i :: 0 <= i < |b| ==> NoBreak(SsidText(b[i], decode))
    ensures obs == ExpectedAll(ts, id1, a, decode) + ExpectedAll(ts, id2, b, decode)
  {
    var vault := new VaultFile();
    vault.SaveToCsv(a, id1, decode);
    ghost var first := vault.lines;
    assert first == [Header] + EncodeAll(id1, a, decode);
    vault.SaveToCsv(b, id2, decode);
    assert first + [] == first;
    assert vault.lines == first + EncodeAll(id2, b, decode);
    var text := vault.Contents();
    assert text == FileText([Header] + EncodeAll(id1, a, decode) + EncodeAll(id2, b, decode));
    obs := Decode(ts, text);
    TwoSessionsRoundTrip(ts, id1, a, id2, b, decode);
  }

  /** An SSID that decodes without a double quote is stored exactly as decoded. */
  lemma SsidSurvives(ts: string, localityId: int, ap: AccessPoint, decode: seq<Byte> -> Option<string>)
    requires decode(ap.ssid).Some? && !HasChar(decode(ap.ssid).value, '"') && NoBreak(decode(ap.ssid).value)
    ensures Coerce(ts, HeaderNames, ParseRow(EncodeLine(localityId, ap, decode))).Some?
    ensures Coerce(ts, HeaderNames, ParseRow(EncodeLine(localityId, ap, decode))).value.ssid == decode(ap.ssid)
  {
    RecordRoundTrip(ts, localityId, ap, decode);
  }
}
