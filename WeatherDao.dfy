/**
  WeatherDao.kt: the weather_data table as a map from primary key to row.
  insertWeatherData replaces a row with the same key (OnConflictStrategy.REPLACE);
  getWeatherByDate selects the row whose date, latitude and longitude are
  equal to the arguments, or none.
*/
module Dao {
  import opened Wrappers
  import opened Entries

  type Table = map<Key, WeatherEntry>

  /** Every row is stored under its own primary key. */
  predicate WellKeyed(t: Table) {
    forall k :: k in t ==> KeyOf(t[k]) == k
  }

  /** The row stored under k. */
  function At(t: Table, k: Key): Option<WeatherEntry> {
    if k in t then Some(t[k]) else None
  }

  /** The table after INSERT OR REPLACE of e. */
  function Inserted(t: Table, e: WeatherEntry): (r: Table)
    ensures WellKeyed(t) ==> WellKeyed(r)
  {
    t[KeyOf(e) := e]
  }

  /** The row whose date, latitude and longitude all equal the arguments, if there is one. */
  function Lookup(t: Table, date: string, latitude: real, longitude: real): Option<WeatherEntry> {
    At(t, Key(date, latitude, longitude))
  }

  /** The table after inserting es one after the other. */
  function InsertAll(t: Table, es: seq<WeatherEntry>): Table
    decreases |es|
  {
    if es == [] then t else InsertAll(Inserted(t, es[0]), es[1..])
  }

  /** The last entry of es with key k, if any. */
  function LastWithKey(es: seq<WeatherEntry>, k: Key): (r: Option<WeatherEntry>)
    ensures r.Some? ==> r.value in es && KeyOf(r.value) == k
    ensures r.None? <==> forall i :: 0 <= i < |es| ==> KeyOf(es[i]) != k
    ensures r.Some? ==>
      exists i :: 0 <= i < |es| && es[i] == r.value && forall j :: i < j < |es| ==> KeyOf(es[j]) != k
    decreases |es|
  {
    if es == [] then None
    else if KeyOf(es[|es| - 1]) == k then Some(es[|es| - 1])
    else
      var front := es[..|es| - 1];
      var r := LastWithKey(front, k);
      assert forall i :: 0 <= i < |front| ==> front[i] == es[i];
      r
  }

  // ---------------------------------------------------------------------------
  // Properties of the table operations

  /** After insertWeatherData(e), getWeatherByDate(e.date, e.latitude, e.longitude) returns e. */
  lemma LookupAfterInsert(t: Table, e: WeatherEntry)
    ensures Lookup(Inserted(t, e), e.date, e.latitude, e.longitude) == Some(e)
  {
  }

  /** Inserting under an existing key replaces the old row: the last write wins. */
  lemma InsertReplaces(t: Table, first: WeatherEntry, second: WeatherEntry)
    requires KeyOf(first) == KeyOf(second)
    ensures Inserted(Inserted(t, first), second) == Inserted(t, second)
  {
  }

  /** Insert leaves every row with a different key as it was. */
  lemma InsertLeavesOtherKeys(t: Table, e: WeatherEntry, k: Key)
    requires k != KeyOf(e)
    ensures At(Inserted(t, e), k) == At(t, k)
  {
  }

  /** Inserting the same entry twice gives the table of inserting it once. */
  lemma InsertIdempotent(t: Table, e: WeatherEntry)
    ensures Inserted(Inserted(t, e), e) == Inserted(t, e)
  {
  }

  /** Lookup matches the whole key by equality and finds nothing when no row has that key. */
  lemma LookupIsExact(t: Table, date: string, latitude: real, longitude: real)
    requires WellKeyed(t)
    ensures Lookup(t, date, latitude, longitude).Some? ==>
      var e := Lookup(t, date, latitude, longitude).value;
      e in t.Values && e.date == date && e.latitude == latitude && e.longitude == longitude
    ensures Lookup(t, date, latitude, longitude).None? <==>
      forall e :: e in t.Values ==> KeyOf(e) != Key(date, latitude, longitude)
  {
    var k := Key(date, latitude, longitude);
    if k !in t {
      forall e | e in t.Values ensures KeyOf(e) != k {
        var j :| j in t && t[j] == e;
      }
    }
  }

  /**
    After a run of inserts, each key holds the last entry of the run with that
    key, and a key that no entry of the run has holds what it held before.
  */
  lemma {:induction false} InsertAllAt(t: Table, es: seq<WeatherEntry>, k: Key)
    ensures At(InsertAll(t, es), k) == if LastWithKey(es, k).Some? then LastWithKey(es, k) else At(t, k)
    decreases |es|
  {
    if es != [] {
      var rest := es[1..];
      InsertAllAt(Inserted(t, es[0]), rest, k);
      // LastWithKey looks from the back, InsertAll from the front: relate the two.
      LastWithKeyOfCons(es[0], rest, k);
      assert es == [es[0]] + rest;
    }
  }

  lemma {:induction false} LastWithKeyOfCons(e: WeatherEntry, es: seq<WeatherEntry>, k: Key)
    ensures LastWithKey([e] + es, k) ==
      if LastWithKey(es, k).Some? then LastWithKey(es, k)
      else if KeyOf(e) == k then Some(e) else None
    decreases |es|
  {
    var all := [e] + es;
    if es == [] {
      assert all == [e];
    } else {
      assert all[..|all| - 1] == [e] + es[..|es| - 1];
      assert all[|all| - 1] == es[|es| - 1];
      LastWithKeyOfCons(e, es[..|es| - 1], k);
    }
  }

  /** Inserting one more entry at the end of a run. */
  lemma {:induction false} InsertAllSnoc(t: Table, es: seq<WeatherEntry>, e: WeatherEntry)
    ensures InsertAll(t, es + [e]) == Inserted(InsertAll(t, es), e)
    decreases |es|
  {
    if es == [] {
      assert [] + [e] == [e];
      assert [e][1..] == [];
    } else {
      assert (es + [e])[0] == es[0];
      assert (es + [e])[1..] == es[1..] + [e];
      InsertAllSnoc(Inserted(t, es[0]), es[1..], e);
    }
  }

  lemma {:induction false} InsertAllWellKeyed(t: Table, es: seq<WeatherEntry>)
    requires WellKeyed(t)
    ensures WellKeyed(InsertAll(t, es))
    decreases |es|
  {
    if es != [] {
      InsertAllWellKeyed(Inserted(t, es[0]), es[1..]);
    }
  }

  /** The table of a WeatherDatabase: insertWeatherData and getWeatherByDate. */
  class WeatherDao {
    var table: Table

    ghost predicate Valid()
      reads this
    {
      WellKeyed(table)
    }

    constructor ()
      ensures Valid() && table == map[]
    {
      table := map[];
    }

    /** @Insert(onConflict = REPLACE) */
    method InsertWeatherData(weather: WeatherEntry)
      requires Valid()
      modifies this
      ensures Valid()
      ensures table == Inserted(old(table), weather)
    {
      table := table[KeyOf(weather) := weather];
    }

    /** The row with exactly this date, latitude and longitude, or none. */
    method GetWeatherByDate(date: string, latitude: real, longitude: real) returns (r: Option<WeatherEntry>)
      requires Valid()
      ensures r == Lookup(table, date, latitude, longitude)
      ensures r.Some? ==> r.value in table.Values && KeyOf(r.value) == Key(date, latitude, longitude)
    {
      var k := Key(date, latitude, longitude);
      if k in table {
        r := Some(table[k]);
      } else {
        r := None;
      }
    }
  }
}
