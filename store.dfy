/** The HQ's relational store: the `observations` table, which the ingestion
    path only ever appends to. */
module Store {
  import opened Common

  /** One observation as inserted, in the column order
      timestamp, id_loc, ssid, mac, rssi, channel, hidden, security.
      `ssid` and `mac` are `None` where the record held Python's None (SQL NULL). */
  datatype Observation = Observation(
    timestamp: string,
    idLoc: int,
    ssid: Option<string>,
    mac: Option<string>,
    rssi: int,
    channel: int,
    hidden: int,
    security: int)

  /** A stored row: the surrogate key `id` and the inserted observation. */
  datatype StoredRow = StoredRow(id: int, obs: Observation)

  /** The range of an SQLite INTEGER: the driver binds a Python int only
      when it fits in 64 signed bits, and raises OverflowError otherwise. */
  const I64Min: int := -0x8000_0000_0000_0000
  const I64Max: int := 0x7fff_ffff_ffff_ffff

  predicate FitsI64(v: int) { I64Min <= v <= I64Max }

  /** Every integer column of the observation can be bound. */
  predicate Bindable(o: Observation)
  {
    FitsI64(o.idLoc) && FitsI64(o.rssi) && FitsI64(o.channel) && FitsI64(o.hidden) && FitsI64(o.security)
  }

  /** How save_to_db ends: it returns a count, or the OverflowError raised
      while binding a row escapes it (it is not an `sqlite3.Error`). */
  datatype SaveResult = Returned(count: int) | OverflowRaised

  /** The rows a batch becomes when its ids are assigned from `firstId` on. */
  function Numbered(batch: seq<Observation>, firstId: int): (rows: seq<StoredRow>)
    ensures |rows| == |batch|
    ensures forall i :: 0 <= i < |batch| ==> rows[i].obs == batch[i] && rows[i].id == firstId + i
  {
    seq(|batch|, i requires 0 <= i < |batch| => StoredRow(firstId + i, batch[i]))
  }

  /** Ids strictly increase along the table and stay below `nextId`. */
  ghost predicate IdsBelow(rows: seq<StoredRow>, nextId: int)
  {
    && (forall i, j :: 0 <= i < j < |rows| ==> rows[i].id < rows[j].id)
    && (forall i :: 0 <= i < |rows| ==> 1 <= rows[i].id < nextId)
  }

  /** Appending a batch numbered from `nextId` keeps ids increasing. */
  lemma AppendKeepsIds(rows: seq<StoredRow>, nextId: int, batch: seq<Observation>)
    requires IdsBelow(rows, nextId) && nextId >= 1
    ensures IdsBelow(rows + Numbered(batch, nextId), nextId + |batch|)
  {
    var all := rows + Numbered(batch, nextId);
    forall i, j | 0 <= i < j < |all| ensures all[i].id < all[j].id {
      if j >= |rows| && i < |rows| {
        assert all[j].id == nextId + (j - |rows|);
      }
    }
  }

  /** The database file: whether the table exists, its rows in insertion
      order, and the next surrogate id AUTOINCREMENT will hand out. */
  class ObservationTable {
    var created: bool
    var rows: seq<StoredRow>
    var nextId: int

    ghost predicate Valid()
      reads this
    {
      nextId >= 1 && IdsBelow(rows, nextId) && (!created ==> rows == [])
    }

    /** A database with no table yet. */
    constructor ()
      ensures Valid() && !created && rows == [] && nextId == 1
    {
      created, rows, nextId := false, [], 1;
    }

    /** init_db: the table (and its indices) is created if it does not
        exist; existing rows are untouched, so calling it again changes nothing. */
    method InitDb()
      requires Valid()
      modifies this
      ensures Valid() && created
      ensures rows == old(rows) && nextId == old(nextId)
    {
      if !created {
        created := true;
      }
    }

    /** save_to_db: an empty batch returns 0 without touching the database.
        Otherwise the batch is inserted in one transaction. A missing table
        fails when the statement is prepared: nothing is inserted and 0 is
        returned. A row with an integer outside the 64-bit range makes the
        binding raise OverflowError, which the handler does not catch: the
        transaction is rolled back and the exception leaves the function.
        `storageFails` is an `sqlite3.Error` while the bound rows are written
        or committed: nothing is inserted and 0 is returned. Otherwise every
        row is appended in batch order with fresh increasing ids and the batch
        length is returned. */
    method SaveToDb(dataList: seq<Observation>, storageFails: bool) returns (result: SaveResult)
      requires Valid()
      modifies this
      ensures Valid() && created == old(created)
      ensures old(rows) <= rows
      ensures |dataList| == 0 ==> result == Returned(0) && rows == old(rows) && nextId == old(nextId)
      ensures result.OverflowRaised? <==>
        |dataList| > 0 && old(created) && exists i :: 0 <= i < |dataList| && !Bindable(dataList[i])
      ensures result.OverflowRaised? ==> rows == old(rows) && nextId == old(nextId)
      ensures |dataList| > 0 && old(created) && (forall i :: 0 <= i < |dataList| ==> Bindable(dataList[i])) && !storageFails ==>
        result == Returned(|dataList|) && rows == old(rows) + Numbered(dataList, old(nextId))
        && nextId == old(nextId) + |dataList|
      ensures (!old(created) || storageFails) && !result.OverflowRaised? ==>
        result == Returned(0) && rows == old(rows) && nextId == old(nextId)
    {
      if |dataList| == 0 {
        return Returned(0);
      }
      if !created {
        return Returned(0);
      }
      for i := 0 to |dataList|
        invariant forall j :: 0 <= j < i ==> Bindable(dataList[j])
      {
        if !Bindable(dataList[i]) {
          return OverflowRaised;
        }
      }
      if storageFails {
        return Returned(0);
      }
      AppendKeepsIds(rows, nextId, dataList);
      rows := rows + Numbered(dataList, nextId);
      nextId := nextId + |dataList|;
      result := Returned(|dataList|);
    }
  }
}
