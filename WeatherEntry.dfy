/**
  WeatherEntry.kt: one row of the weather_data table. The primary key is the
  triple (date, latitude, longitude); the row holds one maximum and one
  minimum temperature for it. The record is immutable and compared field by
  field, which a datatype is.
*/
module Entries {

  datatype WeatherEntry = WeatherEntry(
    date: string,
    latitude: real,
    longitude: real,
    maxTemperature: real,
    minTemperature: real)

  /** The primary key of the weather_data table. */
  datatype Key = Key(date: string, latitude: real, longitude: real)

  function KeyOf(e: WeatherEntry): Key {
    Key(e.date, e.latitude, e.longitude)
  }

  /** Two entries are equal exactly when all five fields are; the key is only the first three. */
  lemma EntryEquality(a: WeatherEntry, b: WeatherEntry)
    ensures a == b <==>
      a.date == b.date && a.latitude == b.latitude && a.longitude == b.longitude
      && a.maxTemperature == b.maxTemperature && a.minTemperature == b.minTemperature
    ensures KeyOf(a) == KeyOf(b) <==>
      a.date == b.date && a.latitude == b.latitude && a.longitude == b.longitude
  {
  }
}
