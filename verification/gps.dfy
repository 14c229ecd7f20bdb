/**
 * GPS handling of scan_photos.py: the degrees/minutes/seconds conversion and
 * the extraction of a latitude/longitude pair from the GPS IFD of an Exif block
 * (tags 1 to 4 of the GPS attribute information of Exif 2.3, CIPA DC-008).
 * Rational components are modelled as exact reals.
 */
module Gps {
  import opened Nullable

  /** A value stored under a GPS tag: a tuple of rationals (GPSLatitude,
      GPSLongitude) or a text value (GPSLatitudeRef, GPSLongitudeRef). */
  datatype GpsValue = Components(parts: seq<real>) | Text(text: string)

  /** The GPS IFD as the image library hands it over: tag number to value. */
  type GpsInfo = map<int, GpsValue>

  /** A latitude/longitude pair in signed decimal degrees, either half possibly unset. */
  datatype Coords = Coords(lat: Option<real>, lon: Option<real>)

  const NoCoords: Coords := Coords(None, None)

  const LatitudeRefTag: int := 1
  const LatitudeTag: int := 2
  const LongitudeRefTag: int := 3
  const LongitudeTag: int := 4

  /** Python truthiness of a looked-up tag value: a missing key, an empty tuple
      and an empty string are all false. */
  predicate Truthy(v: Option<GpsValue>) {
    match v
    case None => false
    case Some(Components(parts)) => |parts| > 0
    case Some(Text(text)) => |text| > 0
  }

  /** The hemisphere references that make a coordinate negative. Anything else,
      including lower-case letters and non-text values, leaves it positive. */
  predicate IsSouthOrWest(ref: GpsValue) {
    ref == Text("S") || ref == Text("W")
  }

  /** An angle given in degrees, minutes and seconds, counted in seconds of arc. */
  function ArcSeconds(d: real, m: real, s: real): real {
    3600.0 * d + 60.0 * m + s
  }

  /** Signed decimal degrees of the components `d`, `m`, `s` under hemisphere `ref`. */
  function DecimalFromDms(d: real, m: real, s: real, ref: GpsValue): (r: real)
    ensures IsSouthOrWest(ref) ==> 3600.0 * r == -ArcSeconds(d, m, s)
    ensures !IsSouthOrWest(ref) ==> 3600.0 * r == ArcSeconds(d, m, s)
  {
    var decimal := d + m / 60.0 + s / 3600.0;
    if IsSouthOrWest(ref) then -decimal else decimal
  }

  /** True of a tag value that the conversion can index as `dms[0]`, `dms[1]`,
      `dms[2]` and add up; any other value makes the conversion raise. */
  predicate IsDms(v: GpsValue) {
    v.Components? && |v.parts| >= 3
  }

  /** The conversion applied to a raw tag value; `None` stands for the
      exception raised when the value is too short or is not numeric. */
  function FromDms(dms: GpsValue, ref: GpsValue): (r: Option<real>)
    ensures r.Some? <==> IsDms(dms)
    ensures r.Some? ==> 3600.0 * r.value
                          == (if IsSouthOrWest(ref) then -1.0 else 1.0)
                             * ArcSeconds(dms.parts[0], dms.parts[1], dms.parts[2])
  {
    if IsDms(dms) then Some(DecimalFromDms(dms.parts[0], dms.parts[1], dms.parts[2], ref))
    else None
  }

  /** `gps_info.get(tag)` */
  function Lookup(gps: GpsInfo, tag: int): (r: Option<GpsValue>)
    ensures r.Some? <==> tag in gps
    ensures r.Some? ==> r.value == gps[tag]
  {
    if tag in gps then Some(gps[tag]) else None
  }

  /** All four position tags are present and non-empty. */
  predicate HasPositionTags(gps: GpsInfo) {
    && Truthy(Lookup(gps, LatitudeTag))
    && Truthy(Lookup(gps, LatitudeRefTag))
    && Truthy(Lookup(gps, LongitudeTag))
    && Truthy(Lookup(gps, LongitudeRefTag))
  }

  /** Both position tags hold values the conversion accepts. */
  predicate HasConvertiblePosition(gps: GpsInfo) {
    && LatitudeTag in gps && IsDms(gps[LatitudeTag])
    && LongitudeTag in gps && IsDms(gps[LongitudeTag])
  }

  /**
   * The GPS branch of the metadata reader. `Some(c)` is a normal return with
   * coordinates `c`; `None` is an exception raised by the conversion, which
   * aborts the whole read.
   */
  function ReadGps(gps: Option<GpsInfo>): (r: Option<Coords>)
    // both halves are set, or neither
    ensures r.Some? ==> (r.value.lat.Some? <==> r.value.lon.Some?)
    // no GPS block, or an empty one, gives no coordinates
    ensures gps.None? || |gps.value| == 0 ==> r == Some(NoCoords)
    // a missing or empty position tag gives no coordinates
    ensures gps.Some? && !HasPositionTags(gps.value) ==> r == Some(NoCoords)
    // coordinates are set exactly when all four tags are present and convertible
    ensures (r.Some? && r.value.lat.Some?)
            <==> gps.Some? && HasPositionTags(gps.value) && HasConvertiblePosition(gps.value)
    // the read fails exactly when the tags are present but a position is malformed
    ensures r.None?
            <==> gps.Some? && HasPositionTags(gps.value) && !HasConvertiblePosition(gps.value)
    ensures r.Some? && r.value.lat.Some? ==>
              && r.value.lat == FromDms(gps.value[LatitudeTag], gps.value[LatitudeRefTag])
              && r.value.lon == FromDms(gps.value[LongitudeTag], gps.value[LongitudeRefTag])
  {
    if gps.None? || |gps.value| == 0 then Some(NoCoords)
    else
      var g := gps.value;
      var lat := Lookup(g, LatitudeTag);
      var latRef := Lookup(g, LatitudeRefTag);
      var lon := Lookup(g, LongitudeTag);
      var lonRef := Lookup(g, LongitudeRefTag);
      if Truthy(lat) && Truthy(latRef) && Truthy(lon) && Truthy(lonRef) then
        var la := FromDms(lat.value, latRef.value);
        var lo := FromDms(lon.value, lonRef.value);
        if la.Some? && lo.Some? then Some(Coords(la, lo)) else None
      else Some(NoCoords)
  }

  /** A ref of `S` or `W` yields exactly the negation of what any other ref yields. */
  lemma SouthWestNegates(d: real, m: real, s: real, neg: GpsValue, pos: GpsValue)
    requires IsSouthOrWest(neg) && !IsSouthOrWest(pos)
    ensures DecimalFromDms(d, m, s, neg) == -DecimalFromDms(d, m, s, pos)
  {
  }

  /** With non-negative components the sign of the result follows the hemisphere,
      and the result is zero only for the zero angle. */
  lemma SignFollowsHemisphere(d: real, m: real, s: real, ref: GpsValue)
    requires 0.0 <= d && 0.0 <= m && 0.0 <= s
    ensures IsSouthOrWest(ref) ==> DecimalFromDms(d, m, s, ref) <= 0.0
    ensures !IsSouthOrWest(ref) ==> DecimalFromDms(d, m, s, ref) >= 0.0
    ensures DecimalFromDms(d, m, s, ref) == 0.0 <==> d == 0.0 && m == 0.0 && s == 0.0
  {
  }

  /** A non-negative angle split into whole degrees, whole minutes and seconds. */
  function ToDms(x: real): (r: (real, real, real))
    requires 0.0 <= x
    ensures 0.0 <= r.0 && 0.0 <= r.1 < 60.0 && 0.0 <= r.2 < 60.0
    ensures r.0 == r.0.Floor as real && r.1 == r.1.Floor as real
  {
    var d := x.Floor as real;
    var minutes := (x - d) * 60.0;
    var m := minutes.Floor as real;
    (d, m, (minutes - m) * 60.0)
  }

  /** Encoding a signed angle as a DMS triple with an `N`/`S` reference and
      converting it back gives the angle again. */
  lemma DmsRoundTrip(x: real)
    ensures var t := ToDms(if x < 0.0 then -x else x);
            DecimalFromDms(t.0, t.1, t.2, if x < 0.0 then Text("S") else Text("N")) == x
  {
  }
}
