/**
 * The manual override table of scan_photos.py and the rule that merges it
 * with what the Exif block says.
 */
module Manual {
  import opened Nullable
  import opened Gps

  /** One row of the table. Every row of the shipped table defines all three
      keys, so a lookup with a default always yields the row's own value. */
  datatype ManualEntry = ManualEntry(lat: real, lon: real, date: string)

  /** The table, keyed by bare file name. */
  const ManualData: map<string, ManualEntry> := map[
    "sun0118.jpg" := ManualEntry(24.841396, 120.977613, "2026:01:18 12:00:00"),
    "日光富裕0118.jpg" := ManualEntry(24.841396, 120.977613, "2026:01:18 12:00:00")
  ]

  /** Python truthiness of a date: neither `None` nor the empty string. */
  predicate HasDate(date: Option<string>) {
    date.Some? && |date.value| > 0
  }

  /** The date and coordinates of a file after the override step. */
  datatype Metadata = Metadata(date: Option<string>, coords: Coords)

  /** Applies the table row for `name`, if there is one, to `m`. */
  function ApplyOverride(manual: map<string, ManualEntry>, name: string, m: Metadata): (r: Metadata)
    // files without a row keep their values
    ensures name !in manual ==> r == m
    // a row replaces the coordinates unconditionally
    ensures name in manual ==> r.coords == Coords(Some(manual[name].lat), Some(manual[name].lon))
    // a row supplies the date only when the Exif date is missing or empty
    ensures name in manual ==> r.date == (if HasDate(m.date) then m.date else Some(manual[name].date))
    // a usable Exif date is never replaced
    ensures HasDate(m.date) ==> r.date == m.date
  {
    if name in manual then
      var row := manual[name];
      Metadata(if HasDate(m.date) then m.date else Some(row.date), Coords(Some(row.lat), Some(row.lon)))
    else m
  }

  /** Applying the table a second time changes nothing. */
  lemma OverrideIdempotent(manual: map<string, ManualEntry>, name: string, m: Metadata)
    ensures ApplyOverride(manual, name, ApplyOverride(manual, name, m)) == ApplyOverride(manual, name, m)
  {
  }

  /** Every row of the shipped table carries a non-empty date, so a file with
      a row always ends up with a usable date. */
  lemma ShippedRowsHaveDates(name: string, m: Metadata)
    requires name in ManualData
    ensures HasDate(ApplyOverride(ManualData, name, m).date)
  {
  }
}
