/**
 * The per-file decision of the scanner: which files produce a gallery record,
 * and what the record holds.
 */
module Photos {
  import opened Nullable
  import opened Gps
  import opened Exif
  import opened Extension
  import opened Manual

  /** One entry of the gallery manifest. */
  datatype Photo = Photo(filename: string, date: string, lat: real, lon: real, thumb: Option<string>)

  /** A directory entry with everything the scanner learns from the outside
      world about it: what the image library reads from it, and the path the
      thumbnail generator returns for it (`None` when generation fails). */
  datatype PhotoFile = PhotoFile(name: string, image: ImageRead, thumbnail: Option<string>)

  const UnknownDate: string := "Unknown Date"

  /** The date and coordinates of a file after the Exif read and the override. */
  function FinalMetadata(manual: map<string, ManualEntry>, f: PhotoFile): (r: Metadata)
    // the final coordinates are both set or both unset
    ensures r.coords.lat.Some? <==> r.coords.lon.Some?
    // a table row supplies the coordinates
    ensures f.name in manual ==> r.coords == Coords(Some(manual[f.name].lat), Some(manual[f.name].lon))
    // a row supplies the date only when the Exif date is missing or empty
    ensures f.name in manual ==>
              var date := ReadExif(f.image).date;
              r.date == (if HasDate(date) then date else Some(manual[f.name].date))
    // without a row, the Exif read stands, a failed read counting as no coordinates
    ensures f.name !in manual ==>
              var read := ReadExif(f.image);
              r == Metadata(read.date, if read.coords.Some? then read.coords.value else NoCoords)
  {
    InitialCoordsOfRead(f.image);
    var read := ReadExif(f.image);
    ApplyOverride(manual, f.name, Metadata(read.date, InitialCoords(read.coords)))
  }

  /** The record for one accepted file, or `None` when it is skipped for lack
      of coordinates. */
  function MakeRecord(manual: map<string, ManualEntry>, f: PhotoFile): (r: Option<Photo>)
    ensures var m := FinalMetadata(manual, f);
            r.Some? <==> m.coords.lat.Some? && m.coords.lon.Some?
    ensures r.Some? ==>
              var m := FinalMetadata(manual, f);
              && r.value.filename == f.name
              && r.value.lat == m.coords.lat.value
              && r.value.lon == m.coords.lon.value
              && r.value.date == (if HasDate(m.date) then m.date.value else UnknownDate)
              && |r.value.date| > 0
              && (r.value.thumb.Some? ==> f.thumbnail == r.value.thumb && |r.value.thumb.value| > 0)
              && (r.value.thumb.None? ==> f.thumbnail.None? || f.thumbnail == Some([]))
  {
    var m := FinalMetadata(manual, f);
    if m.coords.lat.Some? && m.coords.lon.Some? then
      var thumb := if f.thumbnail.Some? && |f.thumbnail.value| > 0 then f.thumbnail else None;
      Some(Photo(f.name, if HasDate(m.date) then m.date.value else UnknownDate,
                 m.coords.lat.value, m.coords.lon.value, thumb))
    else None
  }

  /** What the scanner emits for one directory entry. */
  function Emit(manual: map<string, ManualEntry>, f: PhotoFile): (r: Option<Photo>)
    ensures !IsSupported(f.name) ==> r.None?
    // a supported entry yields exactly its record, if it has one
    ensures IsSupported(f.name) ==> r == MakeRecord(manual, f)
    ensures r.Some? ==> r.value.filename == f.name
  {
    if IsSupported(f.name) then MakeRecord(manual, f) else None
  }

  /** A supported file with a table row is always emitted, at the table's
      coordinates, whatever its Exif block says. */
  lemma RowAlwaysEmitted(manual: map<string, ManualEntry>, f: PhotoFile)
    requires IsSupported(f.name) && f.name in manual
    ensures Emit(manual, f).Some?
    ensures Emit(manual, f).value.lat == manual[f.name].lat
    ensures Emit(manual, f).value.lon == manual[f.name].lon
  {
  }

  /** Without a table row a file is emitted exactly when its Exif block has
      convertible coordinates, and the record carries them. */
  lemma NoRowUsesExif(manual: map<string, ManualEntry>, f: PhotoFile)
    requires IsSupported(f.name) && f.name !in manual
    ensures var read := ReadExif(f.image);
            Emit(manual, f).Some? <==> read.coords.Some? && read.coords.value.lat.Some?
    ensures var read := ReadExif(f.image);
            Emit(manual, f).Some? ==>
              && Some(Emit(manual, f).value.lat) == read.coords.value.lat
              && Some(Emit(manual, f).value.lon) == read.coords.value.lon
  {
  }

  /** A file that cannot be read and has no table row is skipped. */
  lemma UnreadableWithoutRowSkipped(manual: map<string, ManualEntry>, f: PhotoFile)
    requires f.image.Unreadable? && f.name !in manual
    ensures Emit(manual, f).None?
  {
  }
}
