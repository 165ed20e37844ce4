/**
  validateCoordinates and roundToTwoDecimals (MainActivity.kt).

  A coordinate typed by the user is represented by what toDoubleOrNull makes
  of its text: None when the text is not a number, Some(value) otherwise.
  Values are reals; roundToTwoDecimals formats with "%.2f", which rounds half
  away from zero (RoundingMode.HALF_UP), and reads the text back.
*/
module Coordinates {
  import opened Wrappers

  datatype CoordinateError =
    | LatitudeFormat
    | LongitudeFormat
    | LatitudeRange
    | LongitudeRange
  {
    /** The message validateCoordinates returns for this failure. */
    function Message(): string {
      match this
      case LatitudeFormat => "Invalid latitude format"
      case LongitudeFormat => "Invalid longitude format"
      case LatitudeRange => "Latitude must be within -90 to 90 degrees"
      case LongitudeRange => "Longitude must be within -180 to 180 degrees"
    }
  }

  predicate LatitudeInRange(x: real) {
    -90.0 <= x <= 90.0
  }

  predicate LongitudeInRange(x: real) {
    -180.0 <= x <= 180.0
  }

  /**
    None when both texts are numbers in range; otherwise the first failing
    check, in the order latitude format, longitude format, latitude range,
    longitude range. All bounds are inclusive.
  */
  function ValidateCoordinates(latitude: Option<real>, longitude: Option<real>): (r: Option<CoordinateError>)
    ensures r.None? <==>
      latitude.Some? && longitude.Some? && LatitudeInRange(latitude.value) && LongitudeInRange(longitude.value)
    ensures r == Some(LatitudeFormat) <==> latitude.None?
    ensures r == Some(LongitudeFormat) <==> latitude.Some? && longitude.None?
    ensures r == Some(LatitudeRange) <==>
      latitude.Some? && longitude.Some? && !LatitudeInRange(latitude.value)
    ensures r == Some(LongitudeRange) <==>
      latitude.Some? && longitude.Some? && LatitudeInRange(latitude.value) && !LongitudeInRange(longitude.value)
  {
    if latitude.None? then Some(LatitudeFormat)
    else if longitude.None? then Some(LongitudeFormat)
    else if !LatitudeInRange(latitude.value) then Some(LatitudeRange)
    else if !LongitudeInRange(longitude.value) then Some(LongitudeRange)
    else None
  }

  /** Rounding of a non-negative value to hundredths, ties upwards. */
  function HalfUp(x: real): real
    requires x >= 0.0
  {
    ((x * 100.0 + 0.5).Floor as real) / 100.0
  }

  /** roundToTwoDecimals: to the nearest hundredth, ties away from zero. */
  function RoundToTwoDecimals(x: real): real {
    if x >= 0.0 then HalfUp(x) else -HalfUp(-x)
  }

  /** x is a whole number of hundredths. */
  predicate OnGrid(x: real) {
    (x * 100.0).Floor as real == x * 100.0
  }

  lemma HalfUpBounds(x: real)
    requires x >= 0.0
    ensures HalfUp(x) >= 0.0
    ensures x - 0.005 < HalfUp(x) <= x + 0.005
    ensures OnGrid(HalfUp(x))
  {
    var k := (x * 100.0 + 0.5).Floor;
    assert k as real <= x * 100.0 + 0.5 < k as real + 1.0;
    assert HalfUp(x) * 100.0 == k as real;
  }

  /**
    The result is a whole number of hundredths within half a hundredth of the
    input; a tie goes away from zero, so the half-hundredth gap is only ever
    on the side of zero.
  */
  lemma RoundingIsNearest(x: real)
    ensures OnGrid(RoundToTwoDecimals(x))
    ensures x - 0.005 <= RoundToTwoDecimals(x) <= x + 0.005
    ensures x >= 0.0 ==> x - 0.005 < RoundToTwoDecimals(x)
    ensures x < 0.0 ==> RoundToTwoDecimals(x) < x + 0.005
  {
    if x >= 0.0 {
      HalfUpBounds(x);
    } else {
      HalfUpBounds(-x);
      var h := HalfUp(-x);
      var k := (h * 100.0).Floor;
      assert h * 100.0 == k as real;
      assert (-h) * 100.0 == (-k) as real;
      assert ((-h) * 100.0).Floor == -k;
    }
  }

  /** A value that is already a whole number of hundredths is left as it is. */
  lemma RoundingFixesGrid(x: real)
    requires OnGrid(x)
    ensures RoundToTwoDecimals(x) == x
  {
    var k := (x * 100.0).Floor;
    if x >= 0.0 {
      assert (x * 100.0 + 0.5).Floor == k;
    } else {
      assert (-x) * 100.0 == -(x * 100.0);
      assert ((-x) * 100.0 + 0.5).Floor == -k;
    }
  }

  /** roundToTwoDecimals is idempotent. */
  lemma RoundingIdempotent(x: real)
    ensures RoundToTwoDecimals(RoundToTwoDecimals(x)) == RoundToTwoDecimals(x)
  {
    RoundingIsNearest(x);
    RoundingFixesGrid(RoundToTwoDecimals(x));
  }

  lemma HalfUpMonotone(x: real, y: real)
    requires 0.0 <= x <= y
    ensures HalfUp(x) <= HalfUp(y)
  {
    assert (x * 100.0 + 0.5).Floor <= (y * 100.0 + 0.5).Floor;
  }

  /** roundToTwoDecimals never reverses the order of two values. */
  lemma RoundingMonotone(x: real, y: real)
    requires x <= y
    ensures RoundToTwoDecimals(x) <= RoundToTwoDecimals(y)
  {
    if 0.0 <= x {
      HalfUpMonotone(x, y);
    } else if y < 0.0 {
      HalfUpMonotone(-y, -x);
    } else {
      HalfUpBounds(-x);
      HalfUpBounds(y);
    }
  }

  /** Rounding a coordinate that passed validation keeps it in range. */
  lemma RoundingKeepsRange(latitude: real, longitude: real)
    requires ValidateCoordinates(Some(latitude), Some(longitude)).None?
    ensures ValidateCoordinates(Some(RoundToTwoDecimals(latitude)), Some(RoundToTwoDecimals(longitude))).None?
  {
    RoundingMonotone(-90.0, latitude);
    RoundingMonotone(latitude, 90.0);
    RoundingMonotone(-180.0, longitude);
    RoundingMonotone(longitude, 180.0);
    RoundingFixesGrid(-90.0);
    RoundingFixesGrid(90.0);
    RoundingFixesGrid(-180.0);
    RoundingFixesGrid(180.0);
  }

  /** Two nearby spellings of one place share their rounded coordinates. */
  lemma NearbyInputsShareRoundedCoordinates()
    ensures RoundToTwoDecimals(40.7128) == RoundToTwoDecimals(40.71278) == 40.71
    ensures RoundToTwoDecimals(-74.0059) == RoundToTwoDecimals(-74.00591) == -74.01
  {
    assert (40.7128 * 100.0 + 0.5).Floor == 4071;
    assert (40.71278 * 100.0 + 0.5).Floor == 4071;
    assert (74.0059 * 100.0 + 0.5).Floor == 7401;
    assert (74.00591 * 100.0 + 0.5).Floor == 7401;
  }
}
