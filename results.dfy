/** Error kinds raised by the grid algebra, and the Result/Option wrappers
    that carry them instead of exceptions. */
module Results {

  /** One constructor per distinct failure of the modelled code.  The
      comment on each names the Python exception the code raises. */
  datatype Error =
    | CrsMismatch          // ValueError("Cannot combine geoboxes in different CRSs")
    | IncompatibleGrids    // ValueError("Incompatible grids")
    | NoGeoboxes           // ValueError("No geoboxes supplied")
    | Not2dSlice           // ValueError: more (or fewer) than two axes in a crop
    | ScalingNotImplemented // NotImplementedError: slice step other than None or 1
    | NotAxisAligned       // AssertionError from the GeoBox constructor
    | AlignOutOfRange      // AssertionError from from_geopolygon
    | ZeroDivision         // ZeroDivisionError from a zero resolution
    | NotInvertible        // TransformNotInvertibleError from inverting a degenerate affine
    | InvalidCoordinate    // ValueError("invalid coordinate ...") from ensure_2d

  datatype Result<+T> = Ok(value: T) | Err(error: Error)

  datatype Option<+T> = None | Some(value: T) {
    function GetOr(default: T): T {
      match this
      case Some(v) => v
      case None => default
    }
  }
}
