/** Java's `Optional`, and any reference the filter treats as possibly `null`. */
module JavaOptional {

  datatype Optional<+T> = Empty | Present(value: T) {

    /** `Optional.orElse`: the value when present, `other` otherwise. */
    function OrElse(other: T): (r: T)
      ensures Present? ==> r == value
      ensures Empty? ==> r == other
    {
      match this
      case Present(v) => v
      case Empty => other
    }
  }
}
