/** The failures of `GridBuilder::build` (src/errors/build_error.rs). Every
    variant hands the builder's items back to the caller. */
module BuildErrors {

  datatype BuildError<T> =
    | NeitherWidthNotHeightSet(items: seq<T>)
    | TooWide(items: seq<T>)
    | TooTall(items: seq<T>)
    | SizeDoesNotMatch(items: seq<T>)
    | SizeNotMultipleOfWidth(items: seq<T>)
    | SizeNotMultipleOfHeight(items: seq<T>)
  {
    /** `into_items`: whatever the variant, the vector it carries. */
    function IntoItems(): (r: seq<T>)
      ensures r == items
    {
      match this
      case NeitherWidthNotHeightSet(v) => v
      case TooWide(v) => v
      case TooTall(v) => v
      case SizeDoesNotMatch(v) => v
      case SizeNotMultipleOfWidth(v) => v
      case SizeNotMultipleOfHeight(v) => v
    }
  }
}
