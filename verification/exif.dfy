/**
 * The metadata reader of scan_photos.py, with the image library abstracted
 * away: opening the file and decoding its Exif block are inputs, and the
 * mapping from Exif tag numbers to names is assumed already applied.
 */
module Exif {
  import opened Nullable
  import opened Gps

  /** The two Exif entries the scanner uses. */
  datatype ExifBlock = ExifBlock(dateTimeOriginal: Option<string>, gpsInfo: Option<GpsInfo>)

  /** What the image library yields for a file: the file could not be opened,
      or it opened and carried an Exif block or none (`None` also stands for
      an empty block, which Python treats the same way). */
  datatype ImageRead = Unreadable | Readable(exif: Option<ExifBlock>)

  /** The pair `(date_str, coords)` the reader returns; `coords == None` only on
      the exception path, where the date is dropped as well. */
  datatype ExifResult = ExifResult(date: Option<string>, coords: Option<Coords>)

  const ReadFailed: ExifResult := ExifResult(None, None)

  /** The GPS block of a readable image, if it has one. */
  function GpsOf(image: ImageRead): Option<GpsInfo> {
    if image.Readable? && image.exif.Some? then image.exif.value.gpsInfo else None
  }

  /** The capture date of a readable image, if it has one. */
  function DateOf(image: ImageRead): Option<string> {
    if image.Readable? && image.exif.Some? then image.exif.value.dateTimeOriginal else None
  }

  /** Reads the capture date and the coordinates of one image. */
  function ReadExif(image: ImageRead): (r: ExifResult)
    // an image that cannot be opened takes the exception path
    ensures image.Unreadable? ==> r == ReadFailed
    // on the exception path nothing survives, not even the date
    ensures r.coords.None? ==> r == ReadFailed
    // the read fails only for an unopenable image or malformed positions
    ensures r.coords.None? <==>
              || image.Unreadable?
              || (&& GpsOf(image).Some?
                  && HasPositionTags(GpsOf(image).value)
                  && !HasConvertiblePosition(GpsOf(image).value))
    // otherwise the date is the Exif date, untouched
    ensures r.coords.Some? ==> image.Readable? && r.date == DateOf(image)
    // latitude and longitude are both set or both unset
    ensures r.coords.Some? ==> (r.coords.value.lat.Some? <==> r.coords.value.lon.Some?)
    // no Exif block, or no GPS block in it, gives no coordinates
    ensures image.Readable? && GpsOf(image).None? ==> r == ExifResult(DateOf(image), Some(NoCoords))
    // coordinates are set exactly when the four position tags are present and convertible
    ensures (r.coords.Some? && r.coords.value.lat.Some?)
            <==> && image.Readable? && GpsOf(image).Some?
                 && HasPositionTags(GpsOf(image).value)
                 && HasConvertiblePosition(GpsOf(image).value)
    // present but malformed positions raise, and the read fails as a whole
    ensures && image.Readable? && GpsOf(image).Some?
            && HasPositionTags(GpsOf(image).value)
            && !HasConvertiblePosition(GpsOf(image).value)
            ==> r == ReadFailed
    // the coordinates are the converted position tags
    ensures r.coords.Some? && r.coords.value.lat.Some? ==>
              && r.coords.value.lat == FromDms(GpsOf(image).value[LatitudeTag], GpsOf(image).value[LatitudeRefTag])
              && r.coords.value.lon == FromDms(GpsOf(image).value[LongitudeTag], GpsOf(image).value[LongitudeRefTag])
  {
    match image
    case Unreadable => ReadFailed
    case Readable(_) =>
      match ReadGps(GpsOf(image))
      case None => ReadFailed
      case Some(c) => ExifResult(DateOf(image), Some(c))
  }

  /** The coordinates the scanner starts from, before any manual override: the
      reader's pair when its latitude is set, otherwise nothing. */
  function InitialCoords(coords: Option<Coords>): (c: Coords)
    ensures coords.None? ==> c == NoCoords
    // a pair whose latitude is set passes through unchanged
    ensures coords.Some? && coords.value.lat.Some? ==> c == coords.value
    // a pair without a latitude is discarded whole
    ensures coords.Some? && coords.value.lat.None? ==> c == NoCoords
  {
    if coords.Some? && coords.value.lat.Some? then coords.value else NoCoords
  }

  /** A failed read is treated exactly like an image without coordinates, and a
      successful read passes its pair through unchanged: the latitude test of
      the scanner loses nothing because the reader sets both halves or neither. */
  lemma InitialCoordsOfRead(image: ImageRead)
    ensures InitialCoords(ReadExif(image).coords) == (if ReadExif(image).coords.Some? then ReadExif(image).coords.value else NoCoords)
    ensures ReadExif(image) == ReadFailed ==> InitialCoords(ReadExif(image).coords) == NoCoords
  {
  }
}
