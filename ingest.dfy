/** The HQ ingestion engine: the agent's vault text is read with a
    header-keyed `;` reader, every record is converted to an observation
    stamped with one arrival time, and the batch is saved to the store. */
module Ingest {
  import opened Common
  import opened Text
  import opened Csv
  import opened Store

  /** The state of the source file when ingestion starts. */
  datatype SourceFile = Missing | Unreadable | Present(text: string)

  /** Which way a run ended: the message it reports, or `Aborted` when the
      OverflowError raised by save_to_db propagates out of the run. */
  datatype IngestOutcome = SourceNotFound | ReadFailed | NoValidRecords | Ingested(count: int) | DatabaseFailed | Aborted

  /** `int(record[key])`: None for a missing column (KeyError), a short row
      (TypeError on None) or text that is not an integer (ValueError). */
  function IntEntry(e: Entry): Option<int>
  {
    if e.Val? then ParseInt(e.text) else None
  }

  /** `record[key]` taken as text: None for a missing column (KeyError);
      `Some(None)` for a short row, whose value is Python's None. */
  function TextEntry(e: Entry): Option<Option<string>>
  {
    match e
    case KeyMissing => None
    case ShortRow => Some(None)
    case Val(t) => Some(Some(t))
  }

  /** The conversion of one record under the header `names`: the observation,
      or None where building it raised and the record is skipped. */
  function Coerce(ts: string, names: seq<string>, row: seq<string>): (o: Option<Observation>)
    ensures o.Some? ==> o.value.timestamp == ts && "SSID" in names && "MAC / BSSID" in names
    ensures o.Some? ==>
      && 0 <= LastIndexOf(names, "RSSI") < |row|
      && Some(o.value.rssi) == ParseInt(row[LastIndexOf(names, "RSSI")])
    ensures o.Some? && o.value.ssid.Some? ==> o.value.ssid.value in row
  {
    var idLoc := IntEntry(Lookup(names, row, "ID_LOCALITY"));
    var ssid := TextEntry(Lookup(names, row, "SSID"));
    var mac := TextEntry(Lookup(names, row, "MAC / BSSID"));
    var rssi := IntEntry(Lookup(names, row, "RSSI"));
    var channel := IntEntry(Lookup(names, row, "CHANNEL"));
    var hidden := IntEntry(Lookup(names, row, "HIDDEN"));
    var security := IntEntry(Lookup(names, row, "SECURITY"));
    if idLoc.Some? && ssid.Some? && mac.Some? && rssi.Some? && channel.Some? && hidden.Some? && security.Some?
    then Some(Observation(ts, idLoc.value, ssid.value, mac.value, rssi.value, channel.value, hidden.value, security.value))
    else None
  }

  /** The names every record must be able to look up. */
  const RequiredNames: seq<string> := ["ID_LOCALITY", "SSID", "MAC / BSSID", "RSSI", "CHANNEL", "HIDDEN", "SECURITY"]

  /** A record is accepted exactly when the SSID and MAC columns are in the
      header and the five integer columns hold integers (which needs them in
      the header too). */
  lemma CoerceAccepts(ts: string, names: seq<string>, row: seq<string>)
    ensures Coerce(ts, names, row).Some? <==>
      && "SSID" in names && "MAC / BSSID" in names
      && IntEntry(Lookup(names, row, "ID_LOCALITY")).Some?
      && IntEntry(Lookup(names, row, "RSSI")).Some?
      && IntEntry(Lookup(names, row, "CHANNEL")).Some?
      && IntEntry(Lookup(names, row, "HIDDEN")).Some?
      && IntEntry(Lookup(names, row, "SECURITY")).Some?
  {
  }

  /** An accepted observation carries the batch timestamp, the five parsed
      integers, and the SSID and MAC cells as they were. */
  lemma CoerceFields(ts: string, names: seq<string>, row: seq<string>)
    requires Coerce(ts, names, row).Some?
    ensures var o := Coerce(ts, names, row).value;
      && o.timestamp == ts
      && Some(o.idLoc) == IntEntry(Lookup(names, row, "ID_LOCALITY"))
      && Some(o.rssi) == IntEntry(Lookup(names, row, "RSSI"))
      && Some(o.channel) == IntEntry(Lookup(names, row, "CHANNEL"))
      && Some(o.hidden) == IntEntry(Lookup(names, row, "HIDDEN"))
      && Some(o.security) == IntEntry(Lookup(names, row, "SECURITY"))
      && Some(o.ssid) == TextEntry(Lookup(names, row, "SSID"))
      && Some(o.mac) == TextEntry(Lookup(names, row, "MAC / BSSID"))
  {
  }

  /** The observations of the records that convert, in file order. */
  function Accepted(ts: string, names: seq<string>, rows: seq<seq<string>>): (obs: seq<Observation>)
    ensures |obs| <= |rows|
    ensures forall i :: 0 <= i < |obs| ==> obs[i].timestamp == ts
  {
    if rows == [] then []
    else
      var last := Coerce(ts, names, rows[|rows| - 1]);
      Accepted(ts, names, rows[..|rows| - 1]) + (if last.Some? then [last.value] else [])
  }

  /** Decoding a whole vault text: the header is its first line and the
      records are the non-empty lines after it. */
  function Decode(ts: string, text: string): (obs: seq<Observation>)
    ensures forall i :: 0 <= i < |obs| ==> obs[i].timestamp == ts
    ensures |obs| <= |SplitLines(text)|
    ensures SplitLines(text) == [] || SplitLines(text)[0] == [] ==> obs == []
  {
    var lines := SplitLines(text);
    var obs := Accepted(ts, HeaderOf(lines), DataRows(lines));
    assert HeaderOf(lines) == [] ==> obs == [] by {
      if HeaderOf(lines) == [] {
        MissingColumnRejectsAll(ts, [], DataRows(lines), 0);
      }
    }
    obs
  }

  /** Records are handled one at a time: the accepted observations of two
      stretches of records are those of each, in order. */
  lemma {:induction false} AcceptedAppend(ts: string, names: seq<string>, a: seq<seq<string>>, b: seq<seq<string>>)
    ensures Accepted(ts, names, a + b) == Accepted(ts, names, a) + Accepted(ts, names, b)
    decreases |b|
  {
    if b == [] {
      assert a + b == a;
    } else {
      var b' := b[..|b| - 1];
      assert (a + b)[..|a + b| - 1] == a + b';
      assert (a + b)[|a + b| - 1] == b[|b| - 1];
      AcceptedAppend(ts, names, a, b');
    }
  }

  /** Records that all convert are all kept. */
  lemma {:induction false} AllWellFormed(ts: string, names: seq<string>, rows: seq<seq<string>>)
    requires forall i :: 0 <= i < |rows| ==> Coerce(ts, names, rows[i]).Some?
    ensures |Accepted(ts, names, rows)| == |rows|
  {
    if rows != [] {
      AllWellFormed(ts, names, rows[..|rows| - 1]);
    }
  }

  /** One malformed record among well-formed ones costs that record only:
      N well-formed records around it give exactly N observations. */
  lemma OneMalformedRecord(ts: string, names: seq<string>, before: seq<seq<string>>, bad: seq<string>, after: seq<seq<string>>)
    requires forall i :: 0 <= i < |before| ==> Coerce(ts, names, before[i]).Some?
    requires forall i :: 0 <= i < |after| ==> Coerce(ts, names, after[i]).Some?
    requires Coerce(ts, names, bad).None?
    ensures |Accepted(ts, names, before + [bad] + after)| == |before| + |after|
  {
    AcceptedAppend(ts, names, before + [bad], after);
    AcceptedAppend(ts, names, before, [bad]);
    assert Accepted(ts, names, [bad]) == [] by {
      assert [bad][..0] == [];
    }
    AllWellFormed(ts, names, before);
    AllWellFormed(ts, names, after);
  }

  /** A header lacking one of the required column names rejects every record. */
  lemma {:induction false} MissingColumnRejectsAll(ts: string, names: seq<string>, rows: seq<seq<string>>, missing: nat)
    requires missing < |RequiredNames| && RequiredNames[missing] !in names
    ensures Accepted(ts, names, rows) == []
  {
    if rows != [] {
      MissingColumnRejectsAll(ts, names, rows[..|rows| - 1], missing);
      CoerceAccepts(ts, names, rows[|rows| - 1]);
    }
  }

  /** The read loop: every record converted with the one timestamp, kept
      when it converts, skipped when it raises. */
  method CollectRows(ingestTimestamp: string, names: seq<string>, reader: seq<seq<string>>)
    returns (processedRows: seq<Observation>)
    ensures processedRows == Accepted(ingestTimestamp, names, reader)
    ensures forall i :: 0 <= i < |processedRows| ==> processedRows[i].timestamp == ingestTimestamp
  {
    processedRows := [];
    for i := 0 to |reader|
      invariant processedRows == Accepted(ingestTimestamp, names, reader[..i])
    {
      assert reader[..i + 1][..i] == reader[..i];
      var dataEntry := Coerce(ingestTimestamp, names, reader[i]);
      match dataEntry {
        case Some(o) => processedRows := processedRows + [o];
        case None =>
      }
    }
    assert reader[..|reader|] == reader;
  }

  /** run_ingest: the table is made sure of first; a missing or unreadable
      source ends the run with nothing saved; otherwise the records are
      converted with one arrival timestamp `now`, and only a non-empty batch
      reaches save_to_db. An integer too wide for SQLite aborts the run with
      nothing saved; `storageFails` stands for a storage error while saving. */
  method RunIngest(table: ObservationTable, source: SourceFile, now: string, storageFails: bool)
    returns (outcome: IngestOutcome)
    requires table.Valid()
    modifies table
    ensures table.Valid() && table.created
    ensures !source.Present? ==> table.rows == old(table.rows) && table.nextId == old(table.nextId)
    ensures source.Missing? ==> outcome == SourceNotFound
    ensures source.Unreadable? ==> outcome == ReadFailed
    ensures source.Present? ==>
      var batch := Decode(now, source.text);
      && (batch == [] ==> outcome == NoValidRecords && table.rows == old(table.rows) && table.nextId == old(table.nextId))
      && (batch != [] && (exists i :: 0 <= i < |batch| && !Bindable(batch[i])) ==>
            outcome == Aborted && table.rows == old(table.rows) && table.nextId == old(table.nextId))
      && (batch != [] && (forall i :: 0 <= i < |batch| ==> Bindable(batch[i])) && !storageFails ==>
            outcome == Ingested(|batch|) && table.rows == old(table.rows) + Numbered(batch, old(table.nextId))
            && table.nextId == old(table.nextId) + |batch|)
      && (batch != [] && (forall i :: 0 <= i < |batch| ==> Bindable(batch[i])) && storageFails ==>
            outcome == DatabaseFailed && table.rows == old(table.rows) && table.nextId == old(table.nextId))
  {
    table.InitDb();
    match source {
      case Missing =>
        return SourceNotFound;
      case Unreadable =>
        return ReadFailed;
      case Present(text) =>
        var lines := SplitLines(text);
        var processedRows := CollectRows(now, HeaderOf(lines), DataRows(lines));
        if |processedRows| > 0 {
          var saved := table.SaveToDb(processedRows, storageFails);
          match saved {
            case OverflowRaised =>
              outcome := Aborted;
            case Returned(importedCount) =>
              if importedCount != 0 {
                outcome := Ingested(importedCount);
              } else {
                outcome := DatabaseFailed;
              }
          }
        } else {
          outcome := NoValidRecords;
        }
    }
  }
}
